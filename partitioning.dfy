/** `id_partition_func`: the partition number written next to every row, from
    the row's id and the number of partitions. */
module Partitioning {
  import opened Wrappers

  /** NumPy's `uint16`. */
  newtype uint16 = x: int | 0 <= x < 0x1_0000

  /** Python's `a % n` for `n != 0`: the remainder takes the sign of `n`. */
  function PyMod(a: int, n: int): (r: int)
    requires n != 0
    ensures n > 0 ==> 0 <= r < n
    ensures n < 0 ==> n < r <= 0
    ensures (a - r) % n == 0
  {
    if n > 0 then
      MultipleMod(a / n, n);
      assert a - a % n == (a / n) * n;
      a % n
    else
      var m := a % -n;
      var q := a / -n;
      assert a == q * -n + m;
      if m == 0 then
        MultipleMod(-q, n);
        assert a == -q * n;
        0
      else
        MultipleMod(-q - 1, n);
        assert a - (m + n) == (-q - 1) * n;
        m + n
  }

  lemma MultipleMod(k: int, n: int)
    requires n != 0
    ensures (k * n) % n == 0
  {
    var x := k * n;
    var q, r := x / n, x % n;
    var d := k - q;
    assert d * n == r by {
      assert x == q * n + r;
      assert d * n == k * n - q * n;
    }
    SmallMultipleIsZero(d, n, r);
  }

  /** A multiple of `n` smaller than `|n|` is zero. */
  lemma SmallMultipleIsZero(d: int, n: int, r: int)
    requires n != 0 && d * n == r && 0 <= r < (if n > 0 then n else -n)
    ensures r == 0
  {
    var m := if n > 0 then n else -n;
    var e := if n > 0 then d else -d;
    assert e * m == r;
    if e > 0 {
      ProductAtLeast(e, m);
    } else if e < 0 {
      ProductNegative(e, m);
    }
  }

  lemma ProductAtLeast(e: int, m: int)
    requires e >= 1 && m > 0
    ensures e * m >= m
  {
    NonNegProduct(e - 1, m);
    assert e * m == (e - 1) * m + m;
  }

  lemma ProductNegative(e: int, m: int)
    requires e < 0 && m > 0
    ensures e * m < 0
  {
    ProductAtLeast(-e, m);
    assert e * m == -((-e) * m);
  }

  lemma NonNegProduct(a: int, b: int)
    requires a >= 0 && b >= 0
    ensures a * b >= 0
  {
  }

  /** For a positive divisor Python's `%` and the Euclidean one agree. */
  lemma PyModPositive(a: int, n: int)
    requires n > 0
    ensures PyMod(a, n) == a % n
  {
  }

  /** `np.uint16(x)` on a Python int, wrapping modulo 2^16 as NumPy 1.x does. */
  function ToUint16(x: int): (r: uint16)
    ensures 0 <= x < 0x1_0000 ==> r as int == x
    ensures (x - r as int) % 0x1_0000 == 0
  {
    (x % 0x1_0000) as uint16
  }

  /** The exception `%` raises when the number of partitions is zero. */
  datatype PartitionError = ZeroDivisionError

  /** `id_partition_func(id, n_partitions, use_seg_id, cv)`. The id 0 keeps
      partition 0 (and is not remapped); any other id is first passed through
      `remap` when one is given (the `decode_segid` branch), then taken modulo
      the number of partitions and cast to `uint16`. */
  function IdPartition(id: int, nPartitions: int, remap: Option<int -> int>): (r: Result<uint16, PartitionError>)
    ensures id == 0 ==> r == Ok(0)
    ensures r.Err? <==> id != 0 && nPartitions == 0
  {
    if id == 0 then Ok(0)
    else
      var key := if remap.Some? then remap.value(id) else id;
      if nPartitions == 0 then Err(ZeroDivisionError)
      else Ok(ToUint16(PyMod(key, nPartitions)))
  }

  /** Without a remap, a non-zero id lands in partition `id % n`. */
  lemma PartitionIsIdModN(id: int, n: int)
    requires id != 0 && 0 < n <= 0x1_0000
    ensures IdPartition(id, n, None) == Ok(ToUint16(id % n))
    ensures IdPartition(id, n, None).value as int == id % n
  {
  }

  /** With at most 2^16 partitions every partition number is below `n`, and
      the cast to `uint16` loses nothing. */
  lemma PartitionInRange(id: int, n: int, remap: Option<int -> int>)
    requires 0 < n <= 0x1_0000
    ensures IdPartition(id, n, remap).Ok?
    ensures IdPartition(id, n, remap).value as int < n
  {
  }

  /** Without a remap and with at most 2^16 partitions, two non-zero ids share
      a partition exactly when they are congruent modulo `n`. */
  lemma SamePartitionIffCongruent(a: int, b: int, n: int)
    requires a != 0 && b != 0 && 0 < n <= 0x1_0000
    ensures IdPartition(a, n, None) == IdPartition(b, n, None) <==> a % n == b % n
  {
    PartitionIsIdModN(a, n);
    PartitionIsIdModN(b, n);
  }

  /** A negative number of partitions gives a non-positive remainder, which
      the cast wraps round to the top of the `uint16` range. */
  lemma NegativeCountWraps(id: int, n: int)
    requires id != 0 && -0x1_0000 < n < 0 && id % -n != 0
    ensures IdPartition(id, n, None).value as int == PyMod(id, n) + 0x1_0000
    ensures IdPartition(id, n, None).value as int > 0x1_0000 + n
  {
  }

  /** With more than 2^16 partitions the cast wraps, so a non-zero id can share
      partition 0 with the id 0. */
  lemma TooManyPartitionsCollideWithZero(n: int)
    requires n > 0x1_0000
    ensures IdPartition(0x1_0000, n, None) == IdPartition(0, n, None)
  {
  }

  /** The default of 64 partitions, on a few ids. */
  lemma DefaultPartitionsExample()
    ensures IdPartition(0, 64, None) == Ok(0)
    ensures IdPartition(1, 64, None) == Ok(1)
    ensures IdPartition(64, 64, None) == Ok(0)
    ensures IdPartition(1000, 64, None) == Ok(40)
    ensures IdPartition(-1, 64, None) == Ok(63)
  {
  }

  /** `pl.col(c).map_elements(id_partition_func, return_dtype=pl.UInt16)`:
      null ids stay null, every other id gets its partition, and the first id
      whose partition raises makes the whole column raise. */
  function PartitionColumn(ids: seq<Option<int>>, n: int, remap: Option<int -> int>): (r: Result<seq<Option<uint16>>, PartitionError>)
    ensures r.Ok? ==> |r.value| == |ids|
    ensures r.Ok? ==> forall i :: 0 <= i < |ids| ==> (r.value[i].None? <==> ids[i].None?)
    ensures r.Err? ==> n == 0
    decreases |ids|
  {
    if ids == [] then Ok([])
    else
      match PartitionColumn(ids[..|ids| - 1], n, remap)
      case Err(e) => Err(e)
      case Ok(col) =>
        match ids[|ids| - 1]
        case None => Ok(col + [None])
        case Some(id) =>
          match IdPartition(id, n, remap)
          case Err(e) => Err(e)
          case Ok(p) => Ok(col + [Some(p)])
  }

  function OkValue(r: Result<uint16, PartitionError>): Option<uint16> {
    if r.Ok? then Some(r.value) else None
  }

  /** The partition column lines up with the id column: nulls where the ids are
      null and the partition of the id everywhere else. */
  lemma {:induction false} PartitionColumnCells(ids: seq<Option<int>>, n: int, remap: Option<int -> int>)
    requires PartitionColumn(ids, n, remap).Ok?
    ensures |PartitionColumn(ids, n, remap).value| == |ids|
    ensures forall i :: 0 <= i < |ids| ==>
      PartitionColumn(ids, n, remap).value[i] ==
        if ids[i].None? then None else OkValue(IdPartition(ids[i].value, n, remap))
    decreases |ids|
  {
    if ids != [] {
      var p := ids[..|ids| - 1];
      PartitionColumnCells(p, n, remap);
      forall i | 0 <= i < |p| ensures p[i] == ids[i] { }
    }
  }

  /** The column raises exactly when some non-zero id meets zero partitions. */
  lemma {:induction false} PartitionColumnFails(ids: seq<Option<int>>, n: int, remap: Option<int -> int>)
    ensures PartitionColumn(ids, n, remap).Err? <==>
      n == 0 && exists i :: 0 <= i < |ids| && ids[i].Some? && ids[i].value != 0
    decreases |ids|
  {
    if ids != [] {
      var p := ids[..|ids| - 1];
      PartitionColumnFails(p, n, remap);
      forall i | 0 <= i < |p| ensures p[i] == ids[i] { }
      if n == 0 && PartitionColumn(ids, n, remap).Ok? {
        ghost var i := |ids| - 1;
        assert !(ids[i].Some? && ids[i].value != 0);
      }
    }
  }
}
