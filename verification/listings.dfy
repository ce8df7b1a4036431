/** The two derived listings of the dashboard: the active-license listing
    (FinalProject.py:97-100), which is also the table the lookup tab queries
    (FinalProject.py:183), and the equity-program split (FinalProject.py:209-217). */
module Listings {
  import opened Seqs
  import opened Registry
  import opened Lookup

  const ActiveStatus := "Active"
  const EquityYes := "Y"
  const EquityNo := "N"

  /** Rows whose "License Status" is exactly `status`. */
  function HasStatus(status: string): Record -> bool
  {
    (r: Record) => r.licenseStatus == status
  }

  /** Rows whose "Equity Program?" flag is exactly `flag`. */
  function HasEquityFlag(flag: string): Record -> bool
  {
    (r: Record) => r.equityProgram == flag
  }

  /** `df3`: the rows of the full table with an "Active" license, in file order. */
  function ActiveRows(full: Table): (r: Table)
    ensures forall x :: x in r ==> x.licenseStatus == ActiveStatus
    ensures forall i :: 0 <= i < |full| && full[i].licenseStatus == ActiveStatus ==> full[i] in r
    ensures forall x: Record :: x.licenseStatus == ActiveStatus ==> multiset(r)[x] == multiset(full)[x]
    ensures IsSubsequence(r, full)
  {
    var active := HasStatus(ActiveStatus);
    assert forall x :: active(x) == (x.licenseStatus == ActiveStatus);
    FilterIsSubsequence(full, active);
    FilterMultiset(full, active);
    assert forall i :: 0 <= i < |full| && full[i].licenseStatus == ActiveStatus ==> full[i] in Filter(full, active) by {
      forall i | 0 <= i < |full| && full[i].licenseStatus == ActiveStatus ensures full[i] in Filter(full, active) {
        FilterComplete(full, active, i);
      }
    }
    Filter(full, active)
  }

  /** `active_sorted`: the active rows ordered by business name. */
  function ActiveListing(full: Table): (r: Table)
    ensures forall x :: x in r ==> x.licenseStatus == ActiveStatus
    ensures forall i :: 0 <= i < |full| && full[i].licenseStatus == ActiveStatus ==> full[i] in r
    ensures SortedByName(r)
    ensures multiset(r) == multiset(ActiveRows(full))
  {
    var rows := ActiveRows(full);
    var r := SortByName(rows);
    assert forall x :: x in r ==> x in rows by {
      forall x | x in r ensures x in rows {
        assert x in multiset(r);
      }
    }
    assert forall x :: x in rows ==> x in r by {
      forall x | x in rows ensures x in r {
        assert x in multiset(rows);
      }
    }
    r
  }

  /** The order `sort_values` picks among rows with equal names is not fixed,
      but the column of names it shows is: any sorted arrangement of the
      active rows lists the same names as `ActiveListing`. */
  lemma ActiveListingNamesDetermined(full: Table, other: Table)
    requires SortedByName(other) && multiset(other) == multiset(ActiveRows(full))
    ensures |other| == |ActiveListing(full)|
    ensures forall i :: 0 <= i < |other| ==> other[i].businessName == ActiveListing(full)[i].businessName
  {
    SortedNamesUnique(other, ActiveListing(full));
  }

  /** Active rows matching the lookup query. */
  function ActiveQueryMask(zipCode: string, storeType: string): Record -> bool
  {
    (r: Record) => r.licenseStatus == ActiveStatus && Matches(r, zipCode, storeType)
  }

  /** The lookup tab runs `find_a_dispensary` on `df3`, so what it shows is
      the rows of the full table that are active AND match the query, in file order. */
  lemma LookupOnActiveRows(full: Table, zipCode: string, storeType: string)
    ensures FindADispensary(ActiveRows(full), zipCode, storeType).rows
            == Filter(full, ActiveQueryMask(zipCode, storeType))
    ensures forall x :: x in FindADispensary(ActiveRows(full), zipCode, storeType).rows ==>
              x.licenseStatus == ActiveStatus
  {
    FilterThenFilter(full, HasStatus(ActiveStatus), QueryMask(zipCode, storeType),
                     ActiveQueryMask(zipCode, storeType));
  }

  /** Number of rows whose equity flag is exactly `flag`. */
  function CountFlag(t: Table, flag: string): nat
  {
    if |t| == 0 then 0
    else (if t[0].equityProgram == flag then 1 else 0) + CountFlag(t[1..], flag)
  }

  lemma {:induction false} FilterCountsFlag(t: Table, flag: string)
    ensures |Filter(t, HasEquityFlag(flag))| == CountFlag(t, flag)
  {
    if |t| > 0 {
      FilterCountsFlag(t[1..], flag);
    }
  }

  /** What the equity tab computes: `sortedEquity`, `yesEQ` and `noEQ`. */
  datatype EquitySummary = EquitySummary(members: Table, yesEQ: nat, noEQ: nat)

  /** The equity split of the cleaned table. */
  function EquitySplit(cleaned: Table): (s: EquitySummary)
    // the listed members are exactly the "Y" rows, sorted by business name
    ensures forall x: Record :: multiset(s.members)[x] == if x.equityProgram == EquityYes then multiset(cleaned)[x] else 0
    ensures SortedByName(s.members)
    // the counts are the numbers of rows flagged exactly "Y" and exactly "N"
    ensures s.yesEQ == CountFlag(cleaned, EquityYes) == |s.members|
    ensures s.noEQ == CountFlag(cleaned, EquityNo)
    // any other flag lands in neither bucket
    ensures s.yesEQ + s.noEQ <= |cleaned|
    ensures s.yesEQ + s.noEQ == |cleaned| <==>
              forall i :: 0 <= i < |cleaned| ==> cleaned[i].equityProgram == EquityYes || cleaned[i].equityProgram == EquityNo
  {
    var yes := HasEquityFlag(EquityYes);
    var no := HasEquityFlag(EquityNo);
    var equityQuery := Filter(cleaned, yes);
    var sortedEquity := SortByName(equityQuery);
    FilterCountsFlag(cleaned, EquityYes);
    FilterCountsFlag(cleaned, EquityNo);
    FilterPartition(cleaned, yes, no);
    FilterMultiset(cleaned, yes);
    EquitySummary(sortedEquity, |equityQuery|, |Filter(cleaned, no)|)
  }
}
