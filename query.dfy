/** `synapse_query` of `examples/query_synapses.py`: a scan of a synapse table
    narrowed by a chain of row filters (autapses, presynaptic ids, postsynaptic
    ids with a partition pre-filter and a semi-join, and a bounding box). */
module SynapseQuery {
  import opened Wrappers
  import opened Seqs
  import opened Partitioning

  /** A cell of an integer column; `Null` is Polars' missing value. */
  datatype Cell = Null | Int(value: int)

  /** A row: the value of each column it has. */
  type Row = map<string, Cell>

  /** The table as scanned: its column names and its rows. */
  datatype Frame = Frame(columns: set<string>, rows: seq<Row>)

  /** The value of column `c` in `row`; a row without the column reads null. */
  function Col(row: Row, c: string): Cell {
    if c in row then row[c] else Null
  }

  const PostRootId: string := "post_pt_root_id"
  const PreRootId: string := "pre_pt_root_id"
  const PostPartition: string := "post_pt_root_id_partition"

  /** The modulus the query uses for the partition pre-filter. */
  const QueryModulus: int := 1024

  // ---------------------------------------------------------------------------
  // Arguments

  /** An id argument: a single Python `int`, or any other iterable of ids. */
  datatype IdArg = ScalarId(id: int) | Ids(items: seq<int>)

  /** `[ids] if isinstance(ids, int) else list(ids)`. */
  function NormaliseIds(a: IdArg): (r: seq<int>)
    ensures a.ScalarId? ==> r == [a.id]
    ensures a.Ids? ==> r == a.items
  {
    match a
    case ScalarId(id) => [id]
    case Ids(items) => items
  }

  /** `bounding_box`, unpacked as `min_corner, max_corner`. */
  datatype BoundingBox = BoundingBox(minCorner: seq<int>, maxCorner: seq<int>)

  datatype QueryArgs = QueryArgs(
    preIds: Option<IdArg>,
    postIds: Option<IdArg>,
    boundingBox: Option<BoundingBox>,
    boundingBoxColumn: string,
    removeAutapses: bool)

  /** The defaults of `synapse_query`. */
  const DefaultArgs: QueryArgs := QueryArgs(None, None, None, "post_pt_position", true)

  datatype QueryError =
    | IndexError
    | ColumnNotFound(name: string)

  // ---------------------------------------------------------------------------
  // Row predicates, with Polars' null semantics: a comparison with a null is
  // null, and `filter` drops the rows where the predicate is null.

  /** `pl.col("post_pt_root_id") != pl.col("pre_pt_root_id")`. */
  predicate NotAutapse(row: Row) {
    Col(row, PostRootId).Int? && Col(row, PreRootId).Int? &&
    Col(row, PostRootId).value != Col(row, PreRootId).value
  }

  /** `pl.col(c).is_in(ids)`. */
  predicate IsIn(row: Row, c: string, ids: seq<int>) {
    Col(row, c).Int? && Col(row, c).value in ids
  }

  /** `[root_id % 1024 for root_id in post_list]`; Python's `%` by a positive
      number is the Euclidean remainder. */
  function PartitionList(posts: seq<int>): (r: seq<int>)
    ensures |r| == |posts|
    ensures forall i :: 0 <= i < |posts| ==> r[i] == posts[i] % QueryModulus
  {
    if posts == [] then [] else [posts[0] % QueryModulus] + PartitionList(posts[1..])
  }

  /** The rows of `join_index`: each listed id with its partition. */
  function JoinIndex(posts: seq<int>): (r: seq<(int, int)>)
    ensures |r| == |posts|
    ensures forall i :: 0 <= i < |posts| ==> r[i] == (posts[i], posts[i] % QueryModulus)
  {
    if posts == [] then [] else [(posts[0], posts[0] % QueryModulus)] + JoinIndex(posts[1..])
  }

  /** `join(join_index, on=[post, partition], how="semi")` keeps a row when some
      index row has the same two keys; null keys match nothing. */
  predicate InJoinIndex(row: Row, index: seq<(int, int)>) {
    exists i :: 0 <= i < |index| && Col(row, PostRootId) == Int(index[i].0) && Col(row, PostPartition) == Int(index[i].1)
  }

  /** The two predicates of the post-id `filter`. */
  predicate PostPrefilter(row: Row, posts: seq<int>) {
    IsIn(row, PostRootId, posts) && IsIn(row, PostPartition, PartitionList(posts))
  }

  function AxisColumn(boxColumn: string, axis: nat): string
    requires axis < 3
  {
    boxColumn + (if axis == 0 then "_x" else if axis == 1 then "_y" else "_z")
  }

  /** `min_corner[i] <= pl.col(<col>_<axis>) <= max_corner[i]`, for one axis. */
  predicate WithinAxis(row: Row, boxColumn: string, box: BoundingBox, axis: nat)
    requires axis < 3 && |box.minCorner| >= 3 && |box.maxCorner| >= 3
  {
    var v := Col(row, AxisColumn(boxColumn, axis));
    v.Int? && box.minCorner[axis] <= v.value <= box.maxCorner[axis]
  }

  /** The bounding-box `filter`, inclusive on both ends of every axis. */
  predicate InBox(row: Row, boxColumn: string, box: BoundingBox)
    requires |box.minCorner| >= 3 && |box.maxCorner| >= 3
  {
    WithinAxis(row, boxColumn, box, 0) && WithinAxis(row, boxColumn, box, 1) && WithinAxis(row, boxColumn, box, 2)
  }

  /** Both corners have the three entries the filter indexes. */
  predicate BoxIndexable(args: QueryArgs) {
    args.boundingBox.Some? ==> |args.boundingBox.value.minCorner| >= 3 && |args.boundingBox.value.maxCorner| >= 3
  }

  // ---------------------------------------------------------------------------
  // The query

  /** The columns each requested filter reads, in the order the plan uses them. */
  function RequiredColumns(args: QueryArgs): seq<string> {
    (if args.removeAutapses then [PostRootId, PreRootId] else [])
    + (if args.preIds.Some? then [PreRootId] else [])
    + (if args.postIds.Some? then [PostRootId, PostPartition] else [])
    + (if args.boundingBox.Some? then
         [AxisColumn(args.boundingBoxColumn, 0), AxisColumn(args.boundingBoxColumn, 1), AxisColumn(args.boundingBoxColumn, 2)]
       else [])
  }

  /** The first of `cs` the table does not have. */
  function FirstMissing(cs: seq<string>, have: set<string>): (r: Option<string>)
    ensures r.None? <==> forall i :: 0 <= i < |cs| ==> cs[i] in have
    ensures r.Some? ==> r.value in cs && r.value !in have
  {
    if cs == [] then None
    else if cs[0] !in have then Some(cs[0])
    else FirstMissing(cs[1..], have)
  }

  /** `filter(post != pre)` when `remove_autapses`. */
  function AutapseStage(rows: seq<Row>, args: QueryArgs): (r: seq<Row>)
    ensures multiset(r) <= multiset(rows)
    ensures args.removeAutapses ==> forall i :: 0 <= i < |r| ==> NotAutapse(r[i])
  {
    if args.removeAutapses then Filter(rows, NotAutapse) else rows
  }

  /** `filter(pre.is_in(pre_list))` when `pre_ids` is given. */
  function PreStage(rows: seq<Row>, args: QueryArgs): (r: seq<Row>)
    ensures multiset(r) <= multiset(rows)
    ensures args.preIds.Some? ==> forall i :: 0 <= i < |r| ==> IsIn(r[i], PreRootId, NormaliseIds(args.preIds.value))
  {
    if args.preIds.Some? then
      var preList := NormaliseIds(args.preIds.value);
      Filter(rows, (row: Row) => IsIn(row, PreRootId, preList))
    else rows
  }

  /** When `post_ids` is given: `filter(post.is_in(post_list),
      partition.is_in(partition_list))`, then the semi-join on both keys. */
  function PostStage(rows: seq<Row>, args: QueryArgs): (r: seq<Row>)
    ensures multiset(r) <= multiset(rows)
    ensures args.postIds.Some? ==> forall i :: 0 <= i < |r| ==>
      PostPrefilter(r[i], NormaliseIds(args.postIds.value)) && InJoinIndex(r[i], JoinIndex(NormaliseIds(args.postIds.value)))
  {
    if args.postIds.Some? then
      var postList := NormaliseIds(args.postIds.value);
      var index := JoinIndex(postList);
      Filter(Filter(rows, (row: Row) => PostPrefilter(row, postList)), (row: Row) => InJoinIndex(row, index))
    else rows
  }

  /** The bounding-box `filter` when `bounding_box` is given. */
  function BoxStage(rows: seq<Row>, args: QueryArgs): (r: seq<Row>)
    requires BoxIndexable(args)
    ensures multiset(r) <= multiset(rows)
    ensures args.boundingBox.Some? ==> forall i :: 0 <= i < |r| ==> InBox(r[i], args.boundingBoxColumn, args.boundingBox.value)
  {
    if args.boundingBox.Some? then
      var box := args.boundingBox.value;
      Filter(rows, (row: Row) => InBox(row, args.boundingBoxColumn, box))
    else rows
  }

  /** The stages in the order of the source. */
  function ApplyFilters(rows: seq<Row>, args: QueryArgs): (r: seq<Row>)
    requires BoxIndexable(args)
    ensures multiset(r) <= multiset(rows)
  {
    BoxStage(PostStage(PreStage(AutapseStage(rows, args), args), args), args)
  }

  /** `synapse_query(...)`: indexing a corner with fewer than three entries
      raises while the filter is built; collecting a plan that names a column
      the table lacks raises; otherwise the rows that pass every filter. */
  function Query(t: Frame, args: QueryArgs): (r: Result<seq<Row>, QueryError>)
    ensures !BoxIndexable(args) ==> r == Err(IndexError)
    ensures r.Err? && BoxIndexable(args) ==>
      r.error.ColumnNotFound? && r.error.name in RequiredColumns(args) && r.error.name !in t.columns
    ensures r.Ok? ==> multiset(r.value) <= multiset(t.rows)
  {
    if !BoxIndexable(args) then Err(IndexError)
    else
      match FirstMissing(RequiredColumns(args), t.columns)
      case Some(c) => Err(ColumnNotFound(c))
      case None => Ok(ApplyFilters(t.rows, args))
  }

  // ---------------------------------------------------------------------------
  // The query as one predicate

  predicate PassesAutapse(row: Row, args: QueryArgs) {
    args.removeAutapses ==> NotAutapse(row)
  }

  predicate PassesPre(row: Row, args: QueryArgs) {
    args.preIds.Some? ==> IsIn(row, PreRootId, NormaliseIds(args.preIds.value))
  }

  predicate PassesPost(row: Row, args: QueryArgs) {
    args.postIds.Some? ==>
      var postList := NormaliseIds(args.postIds.value);
      PostPrefilter(row, postList) && InJoinIndex(row, JoinIndex(postList))
  }

  predicate PassesBox(row: Row, args: QueryArgs)
    requires BoxIndexable(args)
  {
    args.boundingBox.Some? ==> InBox(row, args.boundingBoxColumn, args.boundingBox.value)
  }

  /** A row the query returns: it satisfies every requested filter. */
  predicate Matches(row: Row, args: QueryArgs)
    requires BoxIndexable(args)
  {
    PassesAutapse(row, args) && PassesPre(row, args) && PassesPost(row, args) && PassesBox(row, args)
  }

  /** A stage applied only when `flag` holds is the filter by `!flag || p`. */
  lemma OptionalStage(rows: seq<Row>, flag: bool, p: Row -> bool, q: Row -> bool)
    requires forall row :: q(row) == (!flag || p(row))
    ensures (if flag then Filter(rows, p) else rows) == Filter(rows, q)
  {
    if flag {
      FilterExtensional(rows, p, q);
    } else {
      FilterAll(rows, q);
    }
  }

  lemma AutapseStageIsFilter(rows: seq<Row>, args: QueryArgs)
    ensures AutapseStage(rows, args) == Filter(rows, (row: Row) => PassesAutapse(row, args))
  {
    OptionalStage(rows, args.removeAutapses, NotAutapse, (row: Row) => PassesAutapse(row, args));
  }

  lemma PreStageIsFilter(rows: seq<Row>, args: QueryArgs)
    ensures PreStage(rows, args) == Filter(rows, (row: Row) => PassesPre(row, args))
  {
    var preList := if args.preIds.Some? then NormaliseIds(args.preIds.value) else [];
    OptionalStage(rows, args.preIds.Some?, (row: Row) => IsIn(row, PreRootId, preList), (row: Row) => PassesPre(row, args));
  }

  lemma PostStageIsFilter(rows: seq<Row>, args: QueryArgs)
    ensures PostStage(rows, args) == Filter(rows, (row: Row) => PassesPost(row, args))
  {
    var postList := if args.postIds.Some? then NormaliseIds(args.postIds.value) else [];
    var index := JoinIndex(postList);
    var pre := (row: Row) => PostPrefilter(row, postList);
    var join := (row: Row) => InJoinIndex(row, index);
    var both := (row: Row) => PostPrefilter(row, postList) && InJoinIndex(row, index);
    FilterFilter(rows, pre, join, both);
    OptionalStage(rows, args.postIds.Some?, both, (row: Row) => PassesPost(row, args));
  }

  lemma BoxStageIsFilter(rows: seq<Row>, args: QueryArgs)
    requires BoxIndexable(args)
    ensures BoxStage(rows, args) == Filter(rows, (row: Row) => PassesBox(row, args))
  {
    var box := if args.boundingBox.Some? then args.boundingBox.value else BoundingBox([0, 0, 0], [0, 0, 0]);
    OptionalStage(rows, args.boundingBox.Some?, (row: Row) => InBox(row, args.boundingBoxColumn, box), (row: Row) => PassesBox(row, args));
  }

  /** The chain of filters is one filter by `Matches`, so the result keeps
      the table's order. */
  lemma ApplyFiltersIsFilter(rows: seq<Row>, args: QueryArgs)
    requires BoxIndexable(args)
    ensures ApplyFilters(rows, args) == Filter(rows, (row: Row) => Matches(row, args))
  {
    var p1 := (row: Row) => PassesAutapse(row, args);
    var p2 := (row: Row) => PassesPre(row, args);
    var p3 := (row: Row) => PassesPost(row, args);
    var p4 := (row: Row) => PassesBox(row, args);
    var p12 := (row: Row) => PassesAutapse(row, args) && PassesPre(row, args);
    var p123 := (row: Row) => PassesAutapse(row, args) && PassesPre(row, args) && PassesPost(row, args);
    var r1 := AutapseStage(rows, args);
    var r2 := PreStage(r1, args);
    var r3 := PostStage(r2, args);
    AutapseStageIsFilter(rows, args);
    PreStageIsFilter(r1, args);
    PostStageIsFilter(r2, args);
    BoxStageIsFilter(r3, args);
    FilterFilter(rows, p1, p2, p12);
    FilterFilter(rows, p12, p3, p123);
    FilterFilter(rows, p123, p4, (row: Row) => Matches(row, args));
  }

  // ---------------------------------------------------------------------------
  // What the query returns

  /** The query fails exactly when a corner is too short or a needed column is
      missing, and a short corner is reported first. */
  lemma QueryFailsIff(t: Frame, args: QueryArgs)
    ensures Query(t, args).Err? <==>
      !BoxIndexable(args) || exists i :: 0 <= i < |RequiredColumns(args)| && RequiredColumns(args)[i] !in t.columns
    ensures !BoxIndexable(args) ==> Query(t, args) == Err(IndexError)
    ensures Query(t, args).Err? && BoxIndexable(args) ==>
      Query(t, args).error.ColumnNotFound? && Query(t, args).error.name in RequiredColumns(args) &&
      Query(t, args).error.name !in t.columns
  {
  }

  /** A successful query returns the filtered rows of the table. */
  lemma QueryOk(t: Frame, args: QueryArgs)
    requires Query(t, args).Ok?
    ensures BoxIndexable(args)
    ensures Query(t, args).value == Filter(t.rows, (row: Row) => Matches(row, args))
  {
    ApplyFiltersIsFilter(t.rows, args);
  }

  /** A returned row is a row of the table that satisfies every requested
      filter, and every such row is returned; nothing is duplicated. */
  lemma QueryReturnsMatches(t: Frame, args: QueryArgs)
    requires Query(t, args).Ok?
    ensures BoxIndexable(args)
    ensures forall row :: row in Query(t, args).value <==> row in t.rows && Matches(row, args)
    ensures multiset(Query(t, args).value) <= multiset(t.rows)
  {
    QueryOk(t, args);
    FilterMembers(t.rows, (row: Row) => Matches(row, args));
  }

  /** With `remove_autapses`, no returned row has identical pre- and
      postsynaptic ids (or a null one). */
  lemma NoAutapsesReturned(t: Frame, args: QueryArgs, row: Row)
    requires Query(t, args).Ok? && args.removeAutapses && row in Query(t, args).value
    ensures Col(row, PostRootId).Int? && Col(row, PreRootId).Int?
    ensures Col(row, PostRootId).value != Col(row, PreRootId).value
  {
    QueryReturnsMatches(t, args);
  }

  /** Given `pre_ids`, every returned row's presynaptic id is listed. */
  lemma PreIdsRespected(t: Frame, args: QueryArgs, row: Row)
    requires Query(t, args).Ok? && args.preIds.Some? && row in Query(t, args).value
    ensures Col(row, PreRootId).Int? && Col(row, PreRootId).value in NormaliseIds(args.preIds.value)
  {
    QueryReturnsMatches(t, args);
  }

  /** Given `post_ids`, every returned row's postsynaptic id is listed and its
      stored partition is that id modulo 1024. */
  lemma PostIdsRespected(t: Frame, args: QueryArgs, row: Row)
    requires Query(t, args).Ok? && args.postIds.Some? && row in Query(t, args).value
    ensures Col(row, PostRootId).Int? && Col(row, PostRootId).value in NormaliseIds(args.postIds.value)
    ensures Col(row, PostPartition) == Int(Col(row, PostRootId).value % QueryModulus)
    ensures Col(row, PostPartition).value in PartitionList(NormaliseIds(args.postIds.value))
  {
    QueryReturnsMatches(t, args);
    PostStageIff(row, NormaliseIds(args.postIds.value));
  }

  /** The post-id stage (the two `is_in` filters and the semi-join) keeps a
      row exactly when its id is listed and its partition is the id modulo
      1024. */
  lemma PostStageIff(row: Row, posts: seq<int>)
    ensures PostPrefilter(row, posts) && InJoinIndex(row, JoinIndex(posts)) <==>
      IsIn(row, PostRootId, posts) && Col(row, PostPartition) == Int(Col(row, PostRootId).value % QueryModulus)
  {
    var index := JoinIndex(posts);
    if IsIn(row, PostRootId, posts) && Col(row, PostPartition) == Int(Col(row, PostRootId).value % QueryModulus) {
      var v := Col(row, PostRootId).value;
      var i :| 0 <= i < |posts| && posts[i] == v;
      assert index[i] == (v, v % QueryModulus);
      assert PartitionList(posts)[i] == v % QueryModulus;
    }
  }

  /** A row whose post id is listed and whose partition is in the partition
      list, but is not its own id modulo 1024 (it belongs to another listed
      id), passes the `is_in` pre-filter and is removed only by the semi-join. */
  lemma SemiJoinIsNeeded(row: Row, posts: seq<int>)
    requires IsIn(row, PostRootId, posts)
    requires IsIn(row, PostPartition, PartitionList(posts))
    requires Col(row, PostPartition).value != Col(row, PostRootId).value % QueryModulus
    ensures PostPrefilter(row, posts) && !InJoinIndex(row, JoinIndex(posts))
  {
    PostStageIff(row, posts);
  }

  /** Such rows exist: post id 1 with partition 2, queried with ids `[1, 2]`. */
  lemma SemiJoinExample(row: Row)
    requires row == map[PostRootId := Int(1), PostPartition := Int(2)]
    ensures PostPrefilter(row, [1, 2]) && !InJoinIndex(row, JoinIndex([1, 2]))
  {
    assert PartitionList([1, 2])[1] == 2;
    SemiJoinIsNeeded(row, [1, 2]);
  }

  /** A single `int` passed as `pre_ids` queries the same rows as the list
      holding only it. */
  lemma ScalarPreIdIsSingletonList(t: Frame, args: QueryArgs, x: int)
    requires args.preIds == Some(ScalarId(x))
    ensures Query(t, args) == Query(t, args.(preIds := Some(Ids([x]))))
  {
  }

  /** A single `int` passed as `post_ids` queries the same rows as the list
      holding only it. */
  lemma ScalarPostIdIsSingletonList(t: Frame, args: QueryArgs, x: int)
    requires args.postIds == Some(ScalarId(x))
    ensures Query(t, args) == Query(t, args.(postIds := Some(Ids([x]))))
  {
  }

  /** Called with its defaults, the query needs the two root-id columns and
      returns exactly the table's rows that are not autapses, in order. */
  lemma DefaultQueryRemovesAutapses(t: Frame)
    ensures Query(t, DefaultArgs).Ok? <==> PostRootId in t.columns && PreRootId in t.columns
    ensures Query(t, DefaultArgs).Ok? ==> Query(t, DefaultArgs).value == Filter(t.rows, NotAutapse)
  {
    var need := RequiredColumns(DefaultArgs);
    assert need == [PostRootId, PreRootId];
    assert BoxIndexable(DefaultArgs);
    if PostRootId in t.columns && PreRootId in t.columns {
      assert forall i :: 0 <= i < |need| ==> need[i] in t.columns;
    } else {
      assert need[0] !in t.columns || need[1] !in t.columns;
    }
    if Query(t, DefaultArgs).Ok? {
      assert Query(t, DefaultArgs).value == AutapseStage(t.rows, DefaultArgs);
    }
  }

  /** Rows are only ever removed: the result is no longer than the table and
      holds only its rows. */
  lemma QueryIsSubset(t: Frame, args: QueryArgs)
    requires Query(t, args).Ok?
    ensures |Query(t, args).value| <= |t.rows|
    ensures forall row :: row in Query(t, args).value ==> row in t.rows
  {
    QueryReturnsMatches(t, args);
  }

  /** With no ids, no box and `remove_autapses=False` the whole table comes
      back, in order, whatever its columns. */
  lemma NoFiltersReturnsTable(t: Frame, column: string)
    ensures Query(t, QueryArgs(None, None, None, column, false)) == Ok(t.rows)
  {
    var args := QueryArgs(None, None, None, column, false);
    assert RequiredColumns(args) == [];
    QueryOk(t, args);
    FilterAll(t.rows, (row: Row) => Matches(row, args));
  }

  /** Given `bounding_box`, every returned row lies in the box, bounds
      included, on each of the three axes. */
  lemma BoxRespected(t: Frame, args: QueryArgs, row: Row, axis: nat)
    requires Query(t, args).Ok? && args.boundingBox.Some? && row in Query(t, args).value && axis < 3
    ensures |args.boundingBox.value.minCorner| >= 3 && |args.boundingBox.value.maxCorner| >= 3
    ensures Col(row, AxisColumn(args.boundingBoxColumn, axis)).Int?
    ensures args.boundingBox.value.minCorner[axis] <= Col(row, AxisColumn(args.boundingBoxColumn, axis)).value
    ensures Col(row, AxisColumn(args.boundingBoxColumn, axis)).value <= args.boundingBox.value.maxCorner[axis]
  {
    ReturnedRowMatches(t, args, row);
    InBoxAxis(row, args.boundingBoxColumn, args.boundingBox.value, axis);
  }

  lemma InBoxAxis(row: Row, boxColumn: string, box: BoundingBox, axis: nat)
    requires |box.minCorner| >= 3 && |box.maxCorner| >= 3 && axis < 3
    requires InBox(row, boxColumn, box)
    ensures WithinAxis(row, boxColumn, box, axis)
  {
  }

  /** A returned row satisfies every requested filter. */
  lemma ReturnedRowMatches(t: Frame, args: QueryArgs, row: Row)
    requires Query(t, args).Ok? && row in Query(t, args).value
    ensures BoxIndexable(args) && Matches(row, args)
  {
    QueryReturnsMatches(t, args);
  }

  // ---------------------------------------------------------------------------
  // The query against a table written with `n` partitions

  /** The partition that `id_partition_func` stores for a postsynaptic id when
      the table is written with `n` partitions and no remap. */
  function StoredPartition(post: int, n: int): (r: int)
    requires n != 0
    ensures post == 0 ==> r == 0
    ensures 0 < n <= 0x1_0000 ==> r == post % n
  {
    IdPartition(post, n, None).value as int
  }

  /** A row as written: its postsynaptic id and the partition stored for it. */
  function WrittenRow(post: int, n: int): Row
    requires n != 0
  {
    map[PostRootId := Int(post), PostPartition := Int(StoredPartition(post, n))]
  }

  /** The post-id stage finds a written row by its own id exactly when the
      stored partition is the id modulo 1024. */
  lemma FindsWrittenRowIff(post: int, n: int)
    requires n != 0
    ensures PostPrefilter(WrittenRow(post, n), [post]) && InJoinIndex(WrittenRow(post, n), JoinIndex([post])) <==>
      StoredPartition(post, n) == post % QueryModulus
  {
    PostStageIff(WrittenRow(post, n), [post]);
  }

  /** For a table written with between 1 and 2^16 partitions, the stored
      partition of every id is the one the query looks in exactly when the
      table was written with 1024 partitions. */
  lemma PrefilterAgreesOnlyAt1024(n: int)
    requires 0 < n <= 0x1_0000
    ensures (forall post :: StoredPartition(post, n) == post % QueryModulus) <==> n == QueryModulus
  {
    if n != QueryModulus {
      var post := PartitionMismatch(n);
    }
  }

  /** An id the query looks for in the wrong partition when the table was
      not written with 1024 partitions. */
  lemma PartitionMismatch(n: int) returns (post: int)
    requires 0 < n <= 0x1_0000 && n != QueryModulus
    ensures StoredPartition(post, n) != post % QueryModulus
  {
    if n < QueryModulus {
      post := n;
      assert StoredPartition(n, n) == n % n;
    } else {
      post := QueryModulus;
      assert StoredPartition(post, n) == QueryModulus % n;
    }
  }

  /** Filtering a single row keeps it exactly when it passes. */
  lemma FilterSingle<T>(x: T, p: T -> bool)
    ensures Filter([x], p) == if p(x) then [x] else []
  {
    assert [x][1..] == [];
  }

  /** With the writer's default of 64 partitions, the synapse with
      postsynaptic id 64 is stored in partition 0, and a query for id 64 does
      not return it. */
  lemma DefaultPartitionsMissRow(t: Frame, args: QueryArgs)
    requires t == Frame({PostRootId, PostPartition}, [WrittenRow(64, 64)])
    requires args == QueryArgs(None, Some(ScalarId(64)), None, "post_pt_position", false)
    ensures Query(t, args) == Ok([])
  {
    var row := WrittenRow(64, 64);
    assert StoredPartition(64, 64) == 0;
    FindsWrittenRowIff(64, 64);
    assert RequiredColumns(args) == [PostRootId, PostPartition];
    QueryOk(t, args);
    FilterSingle(row, (r: Row) => Matches(r, args));
  }

  /** With 1024 partitions, a query for a written row's id returns it. */
  lemma PartitionsOf1024FindRow(t: Frame, args: QueryArgs, post: int)
    requires t == Frame({PostRootId, PostPartition}, [WrittenRow(post, QueryModulus)])
    requires args == QueryArgs(None, Some(ScalarId(post)), None, "post_pt_position", false)
    ensures Query(t, args) == Ok(t.rows)
  {
    var row := WrittenRow(post, QueryModulus);
    FindsWrittenRowIff(post, QueryModulus);
    assert RequiredColumns(args) == [PostRootId, PostPartition];
    QueryOk(t, args);
    FilterSingle(row, (r: Row) => Matches(r, args));
  }
}
