/** `find_a_dispensary` (FinalProject.py:29-38): the rows of a table whose
    license type and zip code both equal the user's choices, plus a flag
    saying whether there were any. */
module Lookup {
  import opened Seqs
  import opened Registry

  /** The pair the source returns: the matching rows and `existingRecords`. */
  datatype LookupResult = LookupResult(rows: Table, existingRecords: bool)

  /** Exact, case-sensitive equality on both columns; no trimming, no
      numeric reading of the zip code, and an empty zip matches only an empty zip. */
  predicate Matches(r: Record, zipCode: string, storeType: string)
  {
    r.licenseType == storeType && r.zipCode == zipCode
  }

  /** The row mask of the query, as a selection predicate. */
  function QueryMask(zipCode: string, storeType: string): Record -> bool
  {
    r => Matches(r, zipCode, storeType)
  }

  function FindADispensary(data: Table, zipCode: string, storeType: string): (res: LookupResult)
    // sound: only matching rows come back
    ensures forall r :: r in res.rows ==> r.licenseType == storeType && r.zipCode == zipCode
    // complete: every matching input row comes back, as often as it occurs
    ensures forall i :: 0 <= i < |data| && Matches(data[i], zipCode, storeType) ==> data[i] in res.rows
    ensures forall r :: Matches(r, zipCode, storeType) ==> multiset(res.rows)[r] == multiset(data)[r]
    // in input order
    ensures IsSubsequence(res.rows, data)
    // the flag reports whether any input row matches; zero matches is not an error
    ensures res.existingRecords <==> exists i :: 0 <= i < |data| && Matches(data[i], zipCode, storeType)
    ensures res.existingRecords <==> |res.rows| > 0
  {
    var mask := QueryMask(zipCode, storeType);
    assert forall r :: mask(r) == Matches(r, zipCode, storeType);
    var result := Filter(data, mask);
    FilterIsSubsequence(data, mask);
    FilterEmptyIff(data, mask);
    FilterMultiset(data, mask);
    assert forall i :: 0 <= i < |data| && Matches(data[i], zipCode, storeType) ==> data[i] in result by {
      forall i | 0 <= i < |data| && Matches(data[i], zipCode, storeType) ensures data[i] in result {
        FilterComplete(data, mask, i);
      }
    }
    LookupResult(result, |result| > 0)
  }

  /** Asking the same question of the answer returns the answer unchanged. */
  lemma LookupIdempotent(data: Table, zipCode: string, storeType: string)
    ensures FindADispensary(FindADispensary(data, zipCode, storeType).rows, zipCode, storeType)
            == FindADispensary(data, zipCode, storeType)
  {
    FilterIdempotent(data, QueryMask(zipCode, storeType));
  }

  /** A three-row table: Retail in 02118, Retail in 02119, Medical in 02118. */
  function ExampleTable(): Table
  {
    [Record("", "", "", "Retail", "A", "Active", "Y", "", "02118"),
     Record("", "", "", "Retail", "B", "Active", "Y", "", "02119"),
     Record("", "", "", "Medical", "C", "Active", "Y", "", "02118")]
  }

  /** Retail in 02118 finds exactly the first row. */
  lemma LookupExampleFound()
    ensures FindADispensary(ExampleTable(), "02118", "Retail") == LookupResult([ExampleTable()[0]], true)
  {
    var t := ExampleTable();
    var hit := QueryMask("02118", "Retail");
    assert t[1..] == [t[1], t[2]] && [t[1], t[2]][1..] == [t[2]] && [t[2]][1..] == [];
    assert Filter([t[2]], hit) == [];
    assert Filter([t[1], t[2]], hit) == [];
    assert Filter(t, hit) == [t[0]];
  }

  /** A zip code with no Retail row, or one that lost its leading zero, finds nothing. */
  lemma LookupExampleMissing(zipCode: string)
    requires zipCode == "02120" || zipCode == "2118"
    ensures FindADispensary(ExampleTable(), zipCode, "Retail") == LookupResult([], false)
  {
    var t := ExampleTable();
    var miss := QueryMask(zipCode, "Retail");
    assert t[1..] == [t[1], t[2]] && [t[1], t[2]][1..] == [t[2]] && [t[2]][1..] == [];
    assert Filter([t[2]], miss) == [];
    assert Filter([t[1], t[2]], miss) == [];
    assert Filter(t, miss) == [];
  }
}
