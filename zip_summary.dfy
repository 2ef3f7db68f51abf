/** The ZIP-level summary: after removing two low-count ZIP codes, the
    reconciled parcels are grouped by current-year ZIP and each group is
    reduced to the median current and prior total appraised value; the
    summary is then right-merged with a ZIP boundary reference and rows
    without a boundary are dropped. */
module ZipSummary {
  import opened Tables
  import opened Statistics
  import opened Parcels

  /** ZIP codes excluded by name for having fewer than ten parcels. */
  const ExcludedZips: set<int> := {27312, 27515}

  function RecordZip(c: ParcelRecord): int { c.zip }

  /** The `Zip` cell of an output row; `None` is NaN (no 2025 columns). */
  function ZipOf(r: Reconciled): Option<int>
  {
    MapOption(r.current, RecordZip)
  }

  /** The exclusion mask: a row is kept unless its ZIP is one of the excluded
      ones; a NaN ZIP is not in the list, so the mask keeps it. */
  predicate KeepZip(r: Reconciled)
  {
    match ZipOf(r)
    case None => true
    case Some(z) => z !in ExcludedZips
  }

  function ExcludeSmallZips(rows: seq<Reconciled>): (r: seq<Reconciled>)
    ensures forall x :: x in r ==> x in rows && (ZipOf(x).Some? ==> ZipOf(x).value !in ExcludedZips)
    ensures forall x :: x in rows && (ZipOf(x).None? || ZipOf(x).value !in ExcludedZips) ==> x in r
    ensures IsSubsequence(r, rows)
  {
    Where(rows, KeepZip)
  }

  /** The non-missing values of the `Zip` column, in row order. */
  function ZipList(rows: seq<Reconciled>): (zs: seq<int>)
    ensures forall z :: z in zs <==> exists x :: x in rows && ZipOf(x) == Some(z)
  {
    if rows == [] then []
    else
      var rest := ZipList(rows[1..]);
      assert forall x :: x in rows <==> x == rows[0] || x in rows[1..];
      match ZipOf(rows[0])
      case None => rest
      case Some(z) => [z] + rest
  }

  function MinOf(zs: seq<int>): (m: int)
    requires zs != []
    ensures m in zs && forall z :: z in zs ==> m <= z
  {
    if |zs| == 1 then zs[0]
    else
      var m := MinOf(zs[1..]);
      assert forall z :: z in zs ==> z == zs[0] || z in zs[1..];
      if zs[0] <= m then zs[0] else m
  }

  function Other(m: int): int -> bool
  {
    z => z != m
  }

  /** The distinct values of `zs` in ascending order: the group keys
      a grouping produces (it sorts them by default). */
  function SortedDistinct(zs: seq<int>): (r: seq<int>)
    ensures forall i, j :: 0 <= i < j < |r| ==> r[i] < r[j]
    ensures forall z :: z in r <==> z in zs
    decreases |zs|
  {
    if zs == [] then []
    else
      var m := MinOf(zs);
      var rest := SortedDistinct(Where(zs, Other(m)));
      assert forall z :: z in rest ==> z in zs && m < z;
      [m] + rest
  }

  function InZip(z: int): Reconciled -> bool
  {
    r => ZipOf(r) == Some(z)
  }

  /** The rows of one ZIP group. */
  function Group(rows: seq<Reconciled>, z: int): (g: seq<Reconciled>)
    ensures forall x :: x in g <==> x in rows && ZipOf(x) == Some(z)
  {
    Where(rows, InZip(z))
  }

  /** `TotalAppraisedValue` over a ZIP group. */
  function CurrentTotals(rows: seq<Reconciled>, z: int): (v: seq<real>)
    ensures |v| == |Group(rows, z)|
  {
    var g := Group(rows, z);
    seq(|g|, i requires 0 <= i < |g| => assert g[i] in g; g[i].current.value.totalValue)
  }

  /** `TotalAppraisedValue_2024` over a ZIP group. */
  function PriorTotals(rows: seq<Reconciled>, z: int): (v: seq<real>)
    ensures |v| == |Group(rows, z)|
  {
    var g := Group(rows, z);
    seq(|g|, i requires 0 <= i < |g| => g[i].prior.totalValue2024)
  }

  /** One row of the ZIP summary: ZIP, AvgAppraisalValue (a median, despite
      its name) and AvgAppraisalValue_2024. */
  datatype ZipMedians = ZipMedians(zip: int, medianCurrent: real, medianPrior: real)

  function MediansZip(m: ZipMedians): int { m.zip }

  lemma GroupNonEmpty(rows: seq<Reconciled>, z: int)
    requires z in ZipList(rows)
    ensures |Group(rows, z)| > 0
  {
    var x :| x in rows && ZipOf(x) == Some(z);
    assert x in Group(rows, z);
  }

  /** The summary row of one ZIP present in `rows`. */
  function SummaryRow(rows: seq<Reconciled>, z: int): (m: ZipMedians)
    requires z in ZipList(rows)
    ensures |Group(rows, z)| > 0
    ensures m.zip == z
    ensures m.medianCurrent == Median(CurrentTotals(rows, z))
    ensures m.medianPrior == Median(PriorTotals(rows, z))
  {
    GroupNonEmpty(rows, z);
    ZipMedians(z, Median(CurrentTotals(rows, z)), Median(PriorTotals(rows, z)))
  }

  lemma KeySetOfKeys(keys: seq<int>, r: seq<ZipMedians>)
    requires |r| == |keys|
    requires forall i :: 0 <= i < |r| ==> r[i].zip == keys[i]
    ensures forall z :: z in KeySet(r, MediansZip) <==> z in keys
  {
    forall z | z in keys ensures z in KeySet(r, MediansZip) {
      var i :| 0 <= i < |keys| && keys[i] == z;
      assert MediansZip(r[i]) == z;
    }
  }

  /** Grouping by ZIP and taking the median of the current and prior totals:
      one row per ZIP present, ZIPs ascending. */
  function GroupMedians(rows: seq<Reconciled>): (r: seq<ZipMedians>)
    ensures Increasing(r, MediansZip)
    ensures forall z :: z in KeySet(r, MediansZip) <==> z in ZipList(rows)
    ensures forall i :: 0 <= i < |r| ==>
      && |Group(rows, r[i].zip)| > 0
      && r[i].medianCurrent == Median(CurrentTotals(rows, r[i].zip))
      && r[i].medianPrior == Median(PriorTotals(rows, r[i].zip))
  {
    var keys := SortedDistinct(ZipList(rows));
    var r := seq(|keys|, i requires 0 <= i < |keys| => SummaryRow(rows, keys[i]));
    KeySetOfKeys(keys, r);
    r
  }

  /** The ZIP summary (preprocess.py:82-92): drop the two excluded ZIPs, then
      group and take medians. */
  function ZipAverages(rows: seq<Reconciled>): (r: seq<ZipMedians>)
    ensures Increasing(r, MediansZip)
    ensures forall z :: z in KeySet(r, MediansZip) <==> z in ZipList(rows) && z !in ExcludedZips
    ensures forall i :: 0 <= i < |r| ==>
      && |Group(rows, r[i].zip)| > 0
      && r[i].medianCurrent == Median(CurrentTotals(rows, r[i].zip))
      && r[i].medianPrior == Median(PriorTotals(rows, r[i].zip))
  {
    var kept := ExcludeSmallZips(rows);
    var r := GroupMedians(kept);
    forall z | z !in ExcludedZips ensures Group(kept, z) == Group(rows, z) {
      WhereOfWhere(rows, KeepZip, InZip(z));
    }
    assert forall z :: z in ZipList(kept) <==> z in ZipList(rows) && z !in ExcludedZips;
    r
  }

  // ---------------------------------------------------------------------
  // Boundary merge

  /** A row of the right merge of the boundary reference with the summary:
      the summary row and the boundary of its ZIP, missing when the
      reference has none. */
  datatype MergedZip<G> = MergedZip(geometry: Option<G>, stats: ZipMedians)

  function MergedZipKey<G>(m: MergedZip<G>): int { m.stats.zip }

  /** The right merge with a boundary reference that has one shape per ZIP:
      one row per summary row, in summary order. */
  function RightMerge<G>(shapes: map<int, G>, agg: seq<ZipMedians>): (r: seq<MergedZip<G>>)
    ensures |r| == |agg|
    ensures forall i :: 0 <= i < |agg| ==>
      && r[i].stats == agg[i]
      && (r[i].geometry.Some? <==> agg[i].zip in shapes)
      && (r[i].geometry.Some? ==> r[i].geometry.value == shapes[agg[i].zip])
  {
    seq(|agg|, i requires 0 <= i < |agg| =>
      MergedZip(if agg[i].zip in shapes then Some(shapes[agg[i].zip]) else None, agg[i]))
  }

  predicate HasGeometry<G>(m: MergedZip<G>) { m.geometry.Some? }

  /** Dropping rows with a missing boundary or a missing median; the two
      median columns are never missing, so only rows without a boundary go. */
  function DropMissingGeometry<G(==)>(rows: seq<MergedZip<G>>): (r: seq<MergedZip<G>>)
    ensures forall m :: m in r ==> m in rows && m.geometry.Some?
    ensures forall m :: m in rows && m.geometry.Some? ==> m in r
    ensures IsSubsequence(r, rows)
  {
    Where(rows, HasGeometry)
  }

  /** Dropping the rows without a boundary keeps exactly the summary rows
      whose ZIP the reference knows, in summary order, with their boundary. */
  lemma MergeThenDrop<G>(shapes: map<int, G>, agg: seq<ZipMedians>)
    requires Increasing(agg, MediansZip)
    ensures var r := DropMissingGeometry(RightMerge(shapes, agg));
      && Increasing(r, MergedZipKey)
      && (forall z :: z in KeySet(r, MergedZipKey) <==> z in KeySet(agg, MediansZip) && z in shapes)
      && (forall m :: m in r ==> m.stats in agg && m.stats.zip in shapes && m.geometry == Some(shapes[m.stats.zip]))
  {
    var merged := RightMerge(shapes, agg);
    var r := DropMissingGeometry(merged);
    assert Increasing(merged, MergedZipKey);
    SubsequenceKeepsIncreasing(r, merged, MergedZipKey);
    forall m | m in r ensures m.stats in agg && m.stats.zip in shapes && m.geometry == Some(shapes[m.stats.zip]) {
      var i :| 0 <= i < |merged| && merged[i] == m;
    }
    forall z | z in KeySet(agg, MediansZip) && z in shapes ensures z in KeySet(r, MergedZipKey) {
      var i :| 0 <= i < |agg| && MediansZip(agg[i]) == z;
      assert merged[i] in merged;
      var k :| 0 <= k < |r| && r[k] == merged[i];
      assert MergedZipKey(r[k]) == z;
    }
    forall z | z in KeySet(r, MergedZipKey) ensures z in KeySet(agg, MediansZip) && z in shapes {
      var k :| 0 <= k < |r| && MergedZipKey(r[k]) == z;
      assert r[k] in merged;
      var i :| 0 <= i < |merged| && merged[i] == r[k];
      assert MediansZip(agg[i]) == z;
    }
  }

  /** The map table (preprocess.py:82-102). */
  function ZipMap<G(==)>(rows: seq<Reconciled>, shapes: map<int, G>): (r: seq<MergedZip<G>>)
    ensures Increasing(r, MergedZipKey)
    ensures forall z :: z in KeySet(r, MergedZipKey) <==>
      z in ZipList(rows) && z !in ExcludedZips && z in shapes
    ensures forall m :: m in r ==>
      && m.stats.zip in shapes
      && m.geometry == Some(shapes[m.stats.zip])
      && |Group(rows, m.stats.zip)| > 0
      && m.stats.medianCurrent == Median(CurrentTotals(rows, m.stats.zip))
      && m.stats.medianPrior == Median(PriorTotals(rows, m.stats.zip))
  {
    var agg := ZipAverages(rows);
    MergeThenDrop(shapes, agg);
    assert forall x :: x in agg ==>
      && |Group(rows, x.zip)| > 0
      && x.medianCurrent == Median(CurrentTotals(rows, x.zip))
      && x.medianPrior == Median(PriorTotals(rows, x.zip));
    DropMissingGeometry(RightMerge(shapes, agg))
  }
}
