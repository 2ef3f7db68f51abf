/** The parcel-level half of the preprocessing pipeline: two yearly parcel
    extracts (2024, the prior year, and 2025, the current year) are
    deduplicated, the tax-exempt current-year parcels are dropped, the two
    tables are left-joined on ParcelID, parcels whose land or buildings
    changed or whose prior values are placeholders are dropped, and four
    ratio columns are derived for each surviving parcel. */
module Parcels {
  import opened Tables

  type ParcelId = string

  /** One row of a yearly extract, reduced to the columns the pipeline reads. */
  datatype ParcelRecord = ParcelRecord(
    parcelId: ParcelId,     // ParcelID
    totalValue: real,       // TotalAppraisedValue
    landValue: real,        // TotalAppraisedLandValue
    buildingValue: real,    // TotalAppraisedBuildingValue
    finishedArea: real,     // TotalFinishedArea
    landArea: real,         // LandArea
    zip: int,               // Zip
    exemption: real)        // TotalValueExemption

  /** A row of the 2024 table after projection onto the comparison columns
      and their renaming with the `_2024` suffix. */
  datatype PriorRow = PriorRow(
    parcelId: ParcelId,
    totalValue2024: real,
    landValue2024: real,
    buildingValue2024: real,
    finishedArea2024: real,
    landArea2024: real)

  /** A row of the left join: the 2024 columns and, when a 2025 row with the
      same ParcelID exists, that row; `None` stands for the NaN-filled
      2025 columns of an unmatched parcel. */
  datatype Joined = Joined(prior: PriorRow, current: Option<ParcelRecord>)

  /** The value a float column holds after a division: a number, the missing
      marker NaN, or an infinity of the given sign (x / 0 for x != 0). */
  datatype Cell = Missing | Finite(value: real) | Infinite(positive: bool)

  /** A row of the output table. */
  datatype Reconciled = Reconciled(
    prior: PriorRow,
    current: Option<ParcelRecord>,
    totalRatio: Cell,       // TotalAppraisedValue_percent
    landRatio: Cell,        // TotalAppraisedLandValue_percent
    buildingRatio: Cell,    // TotalAppraisedBuildingValue_percent
    buildingShare: Cell)    // Percent_TotalAppraisedValue_from_building

  function RecordKey(r: ParcelRecord): ParcelId { r.parcelId }
  function PriorKey(r: PriorRow): ParcelId { r.parcelId }
  function JoinedKey(j: Joined): ParcelId { j.prior.parcelId }
  function ReconciledKey(r: Reconciled): ParcelId { r.prior.parcelId }

  // ---------------------------------------------------------------------
  // Projection and renaming of the 2024 table

  function Thin(r: ParcelRecord): PriorRow
  {
    PriorRow(r.parcelId, r.totalValue, r.landValue, r.buildingValue, r.finishedArea, r.landArea)
  }

  /** Keeps ParcelID and the five comparison columns of every 2024 row,
      under their `_2024` names. */
  function ThinPrior(s: seq<ParcelRecord>): (r: seq<PriorRow>)
    ensures |r| == |s|
    ensures forall i :: 0 <= i < |s| ==>
      && r[i].parcelId == s[i].parcelId
      && r[i].totalValue2024 == s[i].totalValue
      && r[i].landValue2024 == s[i].landValue
      && r[i].buildingValue2024 == s[i].buildingValue
      && r[i].finishedArea2024 == s[i].finishedArea
      && r[i].landArea2024 == s[i].landArea
  {
    seq(|s|, i requires 0 <= i < |s| => Thin(s[i]))
  }

  /** Projecting before deduplicating, as the pipeline does, gives the same
      table as deduplicating the full rows and projecting afterwards. */
  lemma {:induction false} ThinThenDropDuplicates(s: seq<ParcelRecord>)
    ensures DropDuplicates(ThinPrior(s), PriorKey) == ThinPrior(DropDuplicates(s, RecordKey))
  {
    KeepFirstThin(s, {});
  }

  lemma {:induction false} KeepFirstThin(s: seq<ParcelRecord>, seen: set<ParcelId>)
    ensures KeepFirst(ThinPrior(s), PriorKey, seen) == ThinPrior(KeepFirst(s, RecordKey, seen))
  {
    if s != [] {
      assert ThinPrior(s)[1..] == ThinPrior(s[1..]);
      KeepFirstThin(s[1..], seen + {s[0].parcelId});
      KeepFirstThin(s[1..], seen);
      var rest := KeepFirst(s[1..], RecordKey, seen + {s[0].parcelId});
      assert ThinPrior([s[0]] + rest) == [Thin(s[0])] + ThinPrior(rest);
    }
  }

  /** Looking a ParcelID up in the projected table finds the projection of
      the row it finds in the full table. */
  lemma FirstWithKeyThin(s: seq<ParcelRecord>, k: ParcelId)
    ensures FirstWithKey(ThinPrior(s), PriorKey, k) == MapOption(FirstWithKey(s, RecordKey, k), Thin)
  {
    FirstIndexPointwise(s, RecordKey, ThinPrior(s), PriorKey, k);
  }

  // ---------------------------------------------------------------------
  // Exemption filter

  predicate NotExempt(c: ParcelRecord) { c.exemption == 0.0 }

  /** Keeps the 2025 rows whose exemption amount is exactly zero. */
  function DropExempt(rows: seq<ParcelRecord>): (r: seq<ParcelRecord>)
    ensures forall c :: c in r ==> c in rows && c.exemption == 0.0
    ensures forall c :: c in rows && c.exemption == 0.0 ==> c in r
    ensures IsSubsequence(r, rows)
  {
    Where(rows, NotExempt)
  }

  // ---------------------------------------------------------------------
  // Left join on ParcelID

  /** The current-year rows carrying a given ParcelID, in table order. */
  function RowsWithId(rows: seq<ParcelRecord>, id: ParcelId): (r: seq<ParcelRecord>)
    ensures forall c :: c in r <==> c in rows && c.parcelId == id
  {
    Where(rows, (c: ParcelRecord) => c.parcelId == id)
  }

  /** The joined rows of one prior-year row: one per matching current-year
      row, or a single row with missing current-year columns. */
  function JoinOne(l: PriorRow, matches: seq<ParcelRecord>): seq<Joined>
  {
    if matches == [] then [Joined(l, None)]
    else seq(|matches|, i requires 0 <= i < |matches| => Joined(l, Some(matches[i])))
  }

  /** Left join on ParcelID: every left row, in left order, paired with each
      right row that has its ParcelID, or with missing columns when none
      has. */
  function LeftJoin(left: seq<PriorRow>, right: seq<ParcelRecord>): (r: seq<Joined>)
    ensures |r| >= |left|
    ensures forall j :: j in r ==> j.prior in left
    ensures forall j :: j in r && j.current.Some? ==>
      j.current.value in right && j.current.value.parcelId == j.prior.parcelId
    ensures forall j :: j in r && j.current.None? ==>
      forall c :: c in right ==> c.parcelId != j.prior.parcelId
  {
    if left == [] then []
    else
      var head := JoinOne(left[0], RowsWithId(right, left[0].parcelId));
      var tail := LeftJoin(left[1..], right);
      assert forall j :: j in head + tail ==> j in head || j in tail;
      head + tail
  }

  lemma {:induction false} RowsWithIdOfUnique(rows: seq<ParcelRecord>, id: ParcelId)
    requires UniqueKeys(rows, RecordKey)
    ensures RowsWithId(rows, id) == match FirstWithKey(rows, RecordKey, id)
                                    case Some(c) => [c]
                                    case None => []
  {
    if rows != [] {
      UniqueKeysTail(rows, RecordKey);
      RowsWithIdOfUnique(rows[1..], id);
      FirstWithKeyTail(rows, RecordKey, id);
      if rows[0].parcelId == id {
        assert FirstWithKey(rows[1..], RecordKey, id) == None;
      }
    }
  }

  /** When the right table has unique ParcelIDs the left join has exactly one
      row per left row: that row paired with its match, if any. */
  lemma {:induction false} LeftJoinOneToOne(left: seq<PriorRow>, right: seq<ParcelRecord>)
    requires UniqueKeys(right, RecordKey)
    ensures |LeftJoin(left, right)| == |left|
    ensures forall i :: 0 <= i < |left| ==>
      LeftJoin(left, right)[i] == Joined(left[i], FirstWithKey(right, RecordKey, left[i].parcelId))
  {
    if left != [] {
      LeftJoinOneToOne(left[1..], right);
      RowsWithIdOfUnique(right, left[0].parcelId);
      var r := LeftJoin(left, right);
      assert r[0] == Joined(left[0], FirstWithKey(right, RecordKey, left[0].parcelId));
      forall i | 1 <= i < |left|
        ensures r[i] == Joined(left[i], FirstWithKey(right, RecordKey, left[i].parcelId))
      {
        assert r[i] == LeftJoin(left[1..], right)[i - 1];
        assert left[1..][i - 1] == left[i];
      }
    }
  }

  // ---------------------------------------------------------------------
  // Validity filter

  /** Same land area, same finished area (a missing 2025 side compares
      unequal, as NaN does), and all three 2024 values above 1. */
  predicate IsValid(j: Joined)
  {
    match j.current
    case None => false
    case Some(c) =>
      && j.prior.landArea2024 == c.landArea
      && j.prior.finishedArea2024 == c.finishedArea
      && j.prior.totalValue2024 > 1.0
      && j.prior.landValue2024 > 1.0
      && j.prior.buildingValue2024 > 1.0
  }

  function KeepValid(rows: seq<Joined>): (r: seq<Joined>)
    ensures forall j :: j in r ==> j in rows && j.current.Some?
    ensures forall j :: j in r ==>
      && j.prior.landArea2024 == j.current.value.landArea
      && j.prior.finishedArea2024 == j.current.value.finishedArea
      && j.prior.totalValue2024 > 1.0
      && j.prior.landValue2024 > 1.0
      && j.prior.buildingValue2024 > 1.0
    ensures forall j :: j in rows && IsValid(j) ==> j in r
    ensures IsSubsequence(r, rows)
  {
    Where(rows, IsValid)
  }

  // ---------------------------------------------------------------------
  // Ratio columns

  /** Float division as pandas performs it on two cells that may be NaN:
      NaN in gives NaN out, x / 0 is an infinity of the sign of x, 0 / 0 is
      NaN. */
  function Divide(n: Option<real>, d: Option<real>): (q: Cell)
    ensures q.Finite? <==> n.Some? && d.Some? && d.value != 0.0
    ensures q.Finite? ==> n.Some? && d.Some? && q.value * d.value == n.value
    ensures q.Infinite? <==> n.Some? && d == Some(0.0) && n.value != 0.0
    ensures q.Infinite? ==> n.Some? && (q.positive <==> n.value > 0.0)
  {
    match (n, d)
    case (Some(x), Some(y)) =>
      if y != 0.0 then Finite(x / y)
      else if x == 0.0 then Missing
      else Infinite(x > 0.0)
    case _ => Missing
  }

  /** Element-wise choice between a quotient and NaN. */
  function Guarded(guard: bool, q: Cell): Cell
  {
    if guard then q else Missing
  }

  function CurrentTotal(c: ParcelRecord): real { c.totalValue }
  function CurrentLand(c: ParcelRecord): real { c.landValue }
  function CurrentBuilding(c: ParcelRecord): real { c.buildingValue }

  /** The four derived columns of one row. Each ratio is current / prior,
      guarded by `prior > 1`; the building share is current building /
      current total, guarded by the prior building value. */
  function Derive(j: Joined): (r: Reconciled)
    ensures r.prior == j.prior && r.current == j.current
    ensures r.totalRatio.Finite? <==> j.prior.totalValue2024 > 1.0 && j.current.Some?
    ensures r.totalRatio.Finite? ==> r.totalRatio.value * j.prior.totalValue2024 == j.current.value.totalValue
    ensures r.landRatio.Finite? <==> j.prior.landValue2024 > 1.0 && j.current.Some?
    ensures r.landRatio.Finite? ==> r.landRatio.value * j.prior.landValue2024 == j.current.value.landValue
    ensures r.buildingRatio.Finite? <==> j.prior.buildingValue2024 > 1.0 && j.current.Some?
    ensures r.buildingRatio.Finite? ==>
      r.buildingRatio.value * j.prior.buildingValue2024 == j.current.value.buildingValue
    ensures !r.totalRatio.Infinite? && !r.landRatio.Infinite? && !r.buildingRatio.Infinite?
    ensures r.buildingShare.Finite? <==>
      j.prior.buildingValue2024 > 1.0 && j.current.Some? && j.current.value.totalValue != 0.0
    ensures r.buildingShare.Finite? ==>
      r.buildingShare.value * j.current.value.totalValue == j.current.value.buildingValue
    ensures r.buildingShare.Infinite? <==>
      && j.prior.buildingValue2024 > 1.0 && j.current.Some?
      && j.current.value.totalValue == 0.0 && j.current.value.buildingValue != 0.0
  {
    var p := j.prior;
    var total := MapOption(j.current, CurrentTotal);
    var land := MapOption(j.current, CurrentLand);
    var building := MapOption(j.current, CurrentBuilding);
    Reconciled(
      p, j.current,
      Guarded(p.totalValue2024 > 1.0, Divide(total, Some(p.totalValue2024))),
      Guarded(p.landValue2024 > 1.0, Divide(land, Some(p.landValue2024))),
      Guarded(p.buildingValue2024 > 1.0, Divide(building, Some(p.buildingValue2024))),
      Guarded(p.buildingValue2024 > 1.0, Divide(building, total)))
  }

  /** The column assignments applied to every row. */
  function DeriveAll(rows: seq<Joined>): (r: seq<Reconciled>)
    ensures |r| == |rows|
    ensures forall i :: 0 <= i < |rows| ==> r[i] == Derive(rows[i])
  {
    seq(|rows|, i requires 0 <= i < |rows| => Derive(rows[i]))
  }

  // ---------------------------------------------------------------------
  // The whole parcel pipeline

  function Reconcile(extract2024: seq<ParcelRecord>, extract2025: seq<ParcelRecord>): (r: seq<Reconciled>)
    ensures UniqueKeys(r, ReconciledKey)
    ensures forall x :: x in r ==> ValidRecord(x)
  {
    var priorRows := DropDuplicates(ThinPrior(extract2024), PriorKey);
    var currentRows := DropDuplicates(extract2025, RecordKey);
    var taxable := DropExempt(currentRows);
    var joined := LeftJoin(priorRows, taxable);
    var valid := KeepValid(joined);
    ReconcileFacts(priorRows, currentRows);
    DeriveAll(valid)
  }

  /** What every output record satisfies. */
  ghost predicate ValidRecord(x: Reconciled)
  {
    && x.current.Some?
    && x.current.value.exemption == 0.0
    && x.prior.parcelId == x.current.value.parcelId
    && x.prior.landArea2024 == x.current.value.landArea
    && x.prior.finishedArea2024 == x.current.value.finishedArea
    && x.prior.totalValue2024 > 1.0
    && x.prior.landValue2024 > 1.0
    && x.prior.buildingValue2024 > 1.0
    && x.totalRatio == Finite(x.current.value.totalValue / x.prior.totalValue2024)
    && x.landRatio == Finite(x.current.value.landValue / x.prior.landValue2024)
    && x.buildingRatio == Finite(x.current.value.buildingValue / x.prior.buildingValue2024)
    && (x.current.value.totalValue != 0.0 ==>
          x.buildingShare == Finite(x.current.value.buildingValue / x.current.value.totalValue))
    && (x.current.value.totalValue == 0.0 ==> !x.buildingShare.Finite?)
  }

  lemma ReconcileFacts(priorRows: seq<PriorRow>, currentRows: seq<ParcelRecord>)
    requires UniqueKeys(priorRows, PriorKey) && UniqueKeys(currentRows, RecordKey)
    ensures var r := DeriveAll(KeepValid(LeftJoin(priorRows, DropExempt(currentRows))));
      && UniqueKeys(r, ReconciledKey)
      && forall x :: x in r ==> ValidRecord(x)
  {
    var taxable := DropExempt(currentRows);
    SubsequenceKeepsUniqueKeys(taxable, currentRows, RecordKey);
    var joined := LeftJoin(priorRows, taxable);
    LeftJoinOneToOne(priorRows, taxable);
    UniqueKeysPointwise(priorRows, PriorKey, joined, JoinedKey);
    var valid := KeepValid(joined);
    SubsequenceKeepsUniqueKeys(valid, joined, JoinedKey);
    var r := DeriveAll(valid);
    UniqueKeysPointwise(valid, JoinedKey, r, ReconciledKey);
    DerivedRowsValid(valid, taxable, joined);
  }

  lemma DerivedRowsValid(valid: seq<Joined>, taxable: seq<ParcelRecord>, joined: seq<Joined>)
    requires forall j :: j in valid ==> j in joined && IsValid(j)
    requires forall j :: j in joined && j.current.Some? ==>
      j.current.value in taxable && j.current.value.parcelId == j.prior.parcelId
    requires forall c :: c in taxable ==> c.exemption == 0.0
    ensures forall x :: x in DeriveAll(valid) ==> ValidRecord(x)
  {
    var r := DeriveAll(valid);
    forall x | x in r ensures ValidRecord(x) {
      var i :| 0 <= i < |r| && r[i] == x;
      assert valid[i] in valid;
      DeriveOfValid(valid[i]);
    }
  }

  /** On a valid row with a non-exempt match, the three ratios are defined
      and equal current / prior. */
  lemma DeriveOfValid(j: Joined)
    requires IsValid(j) && j.current.value.exemption == 0.0 && j.current.value.parcelId == j.prior.parcelId
    ensures ValidRecord(Derive(j))
  {
  }

  // ---------------------------------------------------------------------
  // Which parcels come out, and with which values

  /** The record the pipeline produces for ParcelID `k`: the first 2024 row
      with that ID, joined with the first 2025 row with that ID, provided that
      2025 row is not exempt and the pair passes the validity filter. */
  ghost function RecordFor(extract2024: seq<ParcelRecord>, extract2025: seq<ParcelRecord>, k: ParcelId): Option<Reconciled>
  {
    match (FirstWithKey(extract2024, RecordKey, k), FirstWithKey(extract2025, RecordKey, k))
    case (Some(p), Some(c)) =>
      var j := Joined(Thin(p), Some(c));
      if NotExempt(c) && IsValid(j) then Some(Derive(j)) else None
    case _ => None
  }

  lemma FirstWithKeyLeftJoin(left: seq<PriorRow>, right: seq<ParcelRecord>, k: ParcelId)
    requires UniqueKeys(right, RecordKey)
    ensures FirstWithKey(LeftJoin(left, right), JoinedKey, k) ==
            match FirstWithKey(left, PriorKey, k)
            case Some(p) => Some(Joined(p, FirstWithKey(right, RecordKey, k)))
            case None => None
  {
    LeftJoinOneToOne(left, right);
    FirstIndexPointwise(left, PriorKey, LeftJoin(left, right), JoinedKey, k);
  }

  lemma FirstWithKeyDeriveAll(rows: seq<Joined>, k: ParcelId)
    ensures FirstWithKey(DeriveAll(rows), ReconciledKey, k) == MapOption(FirstWithKey(rows, JoinedKey, k), Derive)
  {
    FirstIndexPointwise(rows, JoinedKey, DeriveAll(rows), ReconciledKey, k);
  }

  /** Looking ParcelID `k` up in the output finds exactly `RecordFor(k)`:
      the first occurrence in each year survives deduplication, a first
      2025 occurrence that is exempt removes the parcel even when a later
      duplicate is not, and a 2024 parcel with no 2025 match is dropped. */
  lemma {:induction false} ReconcileLookup(extract2024: seq<ParcelRecord>, extract2025: seq<ParcelRecord>, k: ParcelId)
    ensures FirstWithKey(Reconcile(extract2024, extract2025), ReconciledKey, k) == RecordFor(extract2024, extract2025, k)
  {
    var priorRows := DropDuplicates(ThinPrior(extract2024), PriorKey);
    var currentRows := DropDuplicates(extract2025, RecordKey);
    var taxable := DropExempt(currentRows);
    var joined := LeftJoin(priorRows, taxable);
    var valid := KeepValid(joined);
    FirstWithKeyThin(extract2024, k);
    FirstWithKeyWhere(currentRows, NotExempt, RecordKey, k);
    SubsequenceKeepsUniqueKeys(taxable, currentRows, RecordKey);
    FirstWithKeyLeftJoin(priorRows, taxable, k);
    LeftJoinOneToOne(priorRows, taxable);
    UniqueKeysPointwise(priorRows, PriorKey, joined, JoinedKey);
    FirstWithKeyWhere(joined, IsValid, JoinedKey, k);
    FirstWithKeyDeriveAll(valid, k);
  }

  /** A record is in the output exactly when it is the record the pipeline
      produces for its own ParcelID. */
  lemma ReconcileMembers(extract2024: seq<ParcelRecord>, extract2025: seq<ParcelRecord>, x: Reconciled)
    ensures x in Reconcile(extract2024, extract2025) <==> RecordFor(extract2024, extract2025, x.prior.parcelId) == Some(x)
  {
    var r := Reconcile(extract2024, extract2025);
    ReconcileLookup(extract2024, extract2025, x.prior.parcelId);
    if x in r {
      FirstWithKeyOfMember(r, ReconciledKey, x);
    }
  }

  /** A ratio in the output is positive exactly when the current value is:
      a current value of 0 gives a ratio of 0, not the missing marker. */
  lemma RatiosFollowCurrentSign(x: Reconciled)
    requires ValidRecord(x)
    ensures x.totalRatio.value > 0.0 <==> x.current.value.totalValue > 0.0
    ensures x.landRatio.value > 0.0 <==> x.current.value.landValue > 0.0
    ensures x.buildingRatio.value > 0.0 <==> x.current.value.buildingValue > 0.0
  {
    var c, p := x.current.value, x.prior;
    DivisionByPositiveKeepsSign(c.totalValue, p.totalValue2024);
    DivisionByPositiveKeepsSign(c.landValue, p.landValue2024);
    DivisionByPositiveKeepsSign(c.buildingValue, p.buildingValue2024);
  }

  lemma DivisionByPositiveKeepsSign(n: real, d: real)
    requires d > 0.0
    ensures n / d > 0.0 <==> n > 0.0
  {
    if n > 0.0 { assert n / d * d == n; }
    if n / d > 0.0 { assert n == n / d * d; }
  }
}
