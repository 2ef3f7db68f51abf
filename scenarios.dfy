/** Worked single-parcel examples of the parcel pipeline. */
module ParcelScenarios {
  import opened Tables
  import opened Parcels

  function Prior(finished: real, land: real): ParcelRecord
  {
    ParcelRecord("P1", 100000.0, land, 60000.0, finished, 5000.0, 27514, 0.0)
  }

  function Current(total: real, building: real, finished: real): ParcelRecord
  {
    ParcelRecord("P1", total, 60000.0, building, finished, 5000.0, 27514, 0.0)
  }

  /** An unchanged parcel whose total went from 100000 to 155000 comes out
      with a total ratio of 1.55. */
  lemma UnchangedParcelRatio()
    ensures match FirstWithKey(Reconcile([Prior(1500.0, 40000.0)], [Current(155000.0, 95000.0, 1500.0)]), ReconciledKey, "P1")
            case Some(x) => x.totalRatio == Finite(1.55)
            case None => false
  {
    ReconcileLookup([Prior(1500.0, 40000.0)], [Current(155000.0, 95000.0, 1500.0)], "P1");
    FirstWithKeyTail([Prior(1500.0, 40000.0)], RecordKey, "P1");
    FirstWithKeyTail([Current(155000.0, 95000.0, 1500.0)], RecordKey, "P1");
  }

  /** The same parcel with a finished area that grew from 1500 to 1600 is
      excluded. */
  lemma ChangedAreaExcluded()
    ensures FirstWithKey(Reconcile([Prior(1500.0, 40000.0)], [Current(155000.0, 95000.0, 1600.0)]), ReconciledKey, "P1") == None
  {
    ReconcileLookup([Prior(1500.0, 40000.0)], [Current(155000.0, 95000.0, 1600.0)], "P1");
    FirstWithKeyTail([Prior(1500.0, 40000.0)], RecordKey, "P1");
    FirstWithKeyTail([Current(155000.0, 95000.0, 1600.0)], RecordKey, "P1");
  }

  /** A prior land value of 0 makes the land ratio the missing marker, but
      the validity filter has already removed such a parcel from the output. */
  lemma ZeroPriorLandValue()
    ensures Derive(Joined(Thin(Prior(1500.0, 0.0)), Some(Current(155000.0, 95000.0, 1500.0)))).landRatio == Missing
    ensures FirstWithKey(Reconcile([Prior(1500.0, 0.0)], [Current(155000.0, 95000.0, 1500.0)]), ReconciledKey, "P1") == None
  {
    ReconcileLookup([Prior(1500.0, 0.0)], [Current(155000.0, 95000.0, 1500.0)], "P1");
    FirstWithKeyTail([Prior(1500.0, 0.0)], RecordKey, "P1");
    FirstWithKeyTail([Current(155000.0, 95000.0, 1500.0)], RecordKey, "P1");
  }

  /** The building-share column is guarded by the prior building value, not
      by its own denominator: a valid parcel whose current total is 0 and
      whose current building value is not gets an infinite share. */
  lemma BuildingShareCanBeInfinite()
    ensures match FirstWithKey(Reconcile([Prior(1500.0, 40000.0)], [Current(0.0, 5.0, 1500.0)]), ReconciledKey, "P1")
            case Some(x) => x.buildingShare == Infinite(true)
            case None => false
  {
    ReconcileLookup([Prior(1500.0, 40000.0)], [Current(0.0, 5.0, 1500.0)], "P1");
    FirstWithKeyTail([Prior(1500.0, 40000.0)], RecordKey, "P1");
    FirstWithKeyTail([Current(0.0, 5.0, 1500.0)], RecordKey, "P1");
  }

  /** Keep-first, not keep-last: when the first 2025 row of a parcel is
      exempt, a later non-exempt duplicate does not bring the parcel back. */
  lemma ExemptFirstOccurrenceWins()
    ensures FirstWithKey(Reconcile([Prior(1500.0, 40000.0)],
                                   [Current(155000.0, 95000.0, 1500.0).(exemption := 1000.0),
                                    Current(155000.0, 95000.0, 1500.0)]),
                         ReconciledKey, "P1") == None
  {
    var b := [Current(155000.0, 95000.0, 1500.0).(exemption := 1000.0), Current(155000.0, 95000.0, 1500.0)];
    ReconcileLookup([Prior(1500.0, 40000.0)], b, "P1");
    FirstWithKeyTail([Prior(1500.0, 40000.0)], RecordKey, "P1");
    FirstWithKeyTail(b, RecordKey, "P1");
  }
}
