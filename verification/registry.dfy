/** The cannabis registry table after its columns are renamed to readable
    labels (FinalProject.py:47-59), and ordering of its rows by business name. */
module Registry {
  import opened Text

  /** One license entry. Every cell is text; the zip code keeps its leading zeros. */
  datatype Record = Record(
    firstName: string,        // "First Name"
    lastName: string,         // "Last Name"
    fullName: string,         // "Full Name"
    licenseType: string,      // "License Type"
    businessName: string,     // "Business Name"
    licenseStatus: string,    // "License Status"
    equityProgram: string,    // "Equity Program?"
    facilityAddress: string,  // "Facility Address"
    zipCode: string           // "Zip Code"
  )

  /** Rows in file order. */
  type Table = seq<Record>

  /** Every earlier row's business name is at most every later row's. */
  predicate SortedByName(t: Table)
  {
    forall i, j :: 0 <= i < j < |t| ==> LexLeq(t[i].businessName, t[j].businessName)
  }

  /** Inserts `x` into a table sorted by business name, keeping it sorted. */
  function InsertByName(x: Record, t: Table): (r: Table)
    requires SortedByName(t)
    ensures SortedByName(r)
    ensures multiset(r) == multiset(t) + multiset{x}
    decreases |t|
  {
    if |t| == 0 then [x]
    else if LexLeq(x.businessName, t[0].businessName) then
      assert forall j :: 0 <= j < |t| ==> LexLeq(x.businessName, t[j].businessName) by {
        forall j | 0 < j < |t| ensures LexLeq(x.businessName, t[j].businessName) {
          LexLeqTrans(x.businessName, t[0].businessName, t[j].businessName);
        }
      }
      [x] + t
    else
      LexLeqTotal(x.businessName, t[0].businessName);
      var rest := InsertByName(x, t[1..]);
      assert t == [t[0]] + t[1..];
      assert forall k :: 0 <= k < |rest| ==> LexLeq(t[0].businessName, rest[k].businessName) by {
        forall k | 0 <= k < |rest| ensures LexLeq(t[0].businessName, rest[k].businessName) {
          assert rest[k] in multiset(rest);
          if rest[k] != x {
            assert rest[k] in multiset(t[1..]);
            var j :| 0 <= j < |t[1..]| && t[1..][j] == rest[k];
            assert t[j + 1] == rest[k];
          }
        }
      }
      [t[0]] + rest
  }

  /** `df.sort_values(by="Business Name")`: the same rows, ordered by business name. */
  function SortByName(t: Table): (r: Table)
    ensures SortedByName(r)
    ensures multiset(r) == multiset(t)
  {
    if |t| == 0 then []
    else
      assert t == [t[0]] + t[1..];
      InsertByName(t[0], SortByName(t[1..]))
  }

  /** Removing one row keeps a table sorted. */
  lemma SortedRemove(b: Table, i: int)
    requires SortedByName(b) && 0 <= i < |b|
    ensures SortedByName(b[..i] + b[i + 1..])
  {
    var b' := b[..i] + b[i + 1..];
    forall p, q | 0 <= p < q < |b'| ensures LexLeq(b'[p].businessName, b'[q].businessName) {
      var p' := if p < i then p else p + 1;
      var q' := if q < i then q else q + 1;
      assert b'[p] == b[p'] && b'[q] == b[q'];
    }
  }

  /** A row at position `i` of a sorted table whose name is at most the first
      row's name shares that name with every row up to `i`. */
  lemma SamePrefixNames(b: Table, i: int)
    requires SortedByName(b) && 0 <= i < |b|
    requires LexLeq(b[i].businessName, b[0].businessName)
    ensures forall m :: 0 <= m <= i ==> b[m].businessName == b[0].businessName
  {
    forall m | 0 <= m <= i ensures b[m].businessName == b[0].businessName {
      if 0 < m {
        if m < i {
          LexLeqTrans(b[m].businessName, b[i].businessName, b[0].businessName);
        }
        LexLeqAntisymmetric(b[m].businessName, b[0].businessName);
      }
    }
  }

  /** The first rows of two sorted arrangements of the same rows share a name,
      and the row `a[0]` sits at some position `i` of `b` in the run of that name. */
  lemma HeadsAgree(a: Table, b: Table) returns (i: int)
    requires SortedByName(a) && SortedByName(b)
    requires multiset(a) == multiset(b) && |a| > 0
    ensures 0 <= i < |b| && b[i] == a[0]
    ensures forall m :: 0 <= m <= i ==> b[m].businessName == a[0].businessName
  {
    assert a[0] in multiset(b);
    assert b[0] in multiset(a);
    i :| 0 <= i < |b| && b[i] == a[0];
    var j :| 0 <= j < |a| && a[j] == b[0];
    assert LexLeq(b[0].businessName, a[0].businessName) by {
      if i > 0 { assert LexLeq(b[0].businessName, b[i].businessName); } else { LexLeqRefl(a[0].businessName); }
    }
    assert LexLeq(a[0].businessName, b[0].businessName) by {
      if j > 0 { assert LexLeq(a[0].businessName, a[j].businessName); } else { LexLeqRefl(a[0].businessName); }
    }
    LexLeqAntisymmetric(a[0].businessName, b[0].businessName);
    LexLeqRefl(a[0].businessName);
    SamePrefixNames(b, i);
  }

  /** Taking the same row out of two arrangements of the same rows leaves
      two arrangements of the same rows. */
  lemma RemoveMatched(a: Table, b: Table, i: int)
    requires multiset(a) == multiset(b) && |a| > 0 && 0 <= i < |b| && b[i] == a[0]
    ensures multiset(a[1..]) == multiset(b[..i] + b[i + 1..])
  {
    assert b == b[..i] + [b[i]] + b[i + 1..];
    assert a == [a[0]] + a[1..];
    assert multiset(a[1..]) == multiset(a) - multiset{a[0]};
    assert multiset(b[..i] + b[i + 1..]) == multiset(b) - multiset{a[0]};
  }

  /** Sorting decides the row order up to rows with equal business names:
      two sorted arrangements of the same rows agree name by name. */
  lemma {:induction false} SortedNamesUnique(a: Table, b: Table)
    requires SortedByName(a) && SortedByName(b)
    requires multiset(a) == multiset(b)
    ensures |a| == |b|
    ensures forall k :: 0 <= k < |a| ==> a[k].businessName == b[k].businessName
  {
    assert |a| == |multiset(a)| == |multiset(b)| == |b|;
    if |a| > 0 {
      var i := HeadsAgree(a, b);
      var b' := b[..i] + b[i + 1..];
      RemoveMatched(a, b, i);
      SortedRemove(b, i);
      SortedNamesUnique(a[1..], b');
      forall k | 0 < k < |a| ensures a[k].businessName == b[k].businessName {
        assert a[k] == a[1..][k - 1];
        if k <= i {
          assert b'[k - 1] == b[k - 1];
        } else {
          assert b'[k - 1] == b[k];
        }
      }
    }
  }
}
