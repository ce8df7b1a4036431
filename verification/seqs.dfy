/** Order-preserving selection over sequences: the boolean-mask row selection
    the dashboard uses for every query, stated once for any element type. */
module Seqs {

  /** `a` can be obtained from `b` by deleting elements, without reordering. */
  predicate IsSubsequence<T(==)>(a: seq<T>, b: seq<T>)
    decreases |b|
  {
    if |b| == 0 then |a| == 0
    else (|a| > 0 && a[0] == b[0] && IsSubsequence(a[1..], b[1..]))
         || IsSubsequence(a, b[1..])
  }

  /** No element occurs twice. */
  predicate Distinct<T(==)>(s: seq<T>)
  {
    forall i, j :: 0 <= i < j < |s| ==> s[i] != s[j]
  }

  /** The elements of `s` for which `keep` holds, in their original order. */
  function Filter<T>(s: seq<T>, keep: T -> bool): (r: seq<T>)
    ensures |r| <= |s|
    ensures forall x :: x in r ==> keep(x)
  {
    if |s| == 0 then []
    else (if keep(s[0]) then [s[0]] else []) + Filter(s[1..], keep)
  }

  /** Each kept value occurs in the selection exactly as often as in `s`;
      no other value occurs. */
  lemma {:induction false} FilterMultiset<T(!new)>(s: seq<T>, keep: T -> bool)
    ensures forall x :: multiset(Filter(s, keep))[x] == if keep(x) then multiset(s)[x] else 0
  {
    if |s| > 0 {
      FilterMultiset(s[1..], keep);
      assert s == [s[0]] + s[1..];
    }
  }

  /** Every element of `s` satisfying `keep` is in the selection. */
  lemma FilterComplete<T(!new)>(s: seq<T>, keep: T -> bool, i: int)
    requires 0 <= i < |s| && keep(s[i])
    ensures s[i] in Filter(s, keep)
  {
    FilterMultiset(s, keep);
    assert s[i] in multiset(s);
    assert multiset(Filter(s, keep))[s[i]] > 0;
  }

  /** The selection is empty exactly when no element satisfies `keep`. */
  lemma FilterEmptyIff<T(!new)>(s: seq<T>, keep: T -> bool)
    ensures |Filter(s, keep)| == 0 <==> forall i :: 0 <= i < |s| ==> !keep(s[i])
  {
    if exists i :: 0 <= i < |s| && keep(s[i]) {
      var i :| 0 <= i < |s| && keep(s[i]);
      FilterComplete(s, keep, i);
    }
  }

  /** The selection is as long as the input exactly when every element is kept. */
  lemma {:induction false} FilterKeepsAllIff<T(!new)>(s: seq<T>, keep: T -> bool)
    ensures |Filter(s, keep)| == |s| <==> forall i :: 0 <= i < |s| ==> keep(s[i])
  {
    if |s| > 0 {
      FilterKeepsAllIff(s[1..], keep);
      assert forall i :: 0 < i < |s| ==> s[i] == s[1..][i - 1];
    }
  }

  /** The selection keeps the input order. */
  lemma {:induction false} FilterIsSubsequence<T(!new)>(s: seq<T>, keep: T -> bool)
    ensures IsSubsequence(Filter(s, keep), s)
  {
    if |s| > 0 {
      FilterIsSubsequence(s[1..], keep);
      var rest := Filter(s[1..], keep);
      if keep(s[0]) {
        assert Filter(s, keep) == [s[0]] + rest;
        assert ([s[0]] + rest)[1..] == rest;
      } else {
        assert Filter(s, keep) == rest;
      }
    }
  }

  /** Selection distributes over concatenation. */
  lemma {:induction false} FilterAppend<T(!new)>(a: seq<T>, b: seq<T>, keep: T -> bool)
    ensures Filter(a + b, keep) == Filter(a, keep) + Filter(b, keep)
  {
    if |a| > 0 {
      assert (a + b)[1..] == a[1..] + b;
      FilterAppend(a[1..], b, keep);
    } else {
      assert a + b == b;
    }
  }

  /** The selection of a one-element sequence whose element is kept is itself. */
  lemma FilterSingleton<T(!new)>(x: T, keep: T -> bool)
    requires keep(x)
    ensures Filter([x], keep) == [x]
  {
    assert [x][1..] == [];
  }

  /** Selecting twice with the same predicate changes nothing. */
  lemma {:induction false} FilterIdempotent<T(!new)>(s: seq<T>, keep: T -> bool)
    ensures Filter(Filter(s, keep), keep) == Filter(s, keep)
  {
    if |s| > 0 {
      FilterIdempotent(s[1..], keep);
      var rest := Filter(s[1..], keep);
      if keep(s[0]) {
        assert Filter(s, keep) == [s[0]] + rest;
        FilterAppend([s[0]], rest, keep);
        FilterSingleton(s[0], keep);
      } else {
        assert Filter(s, keep) == rest;
      }
    }
  }

  /** Selecting by `p` and then by `q` is selecting once by their conjunction `pq`. */
  lemma {:induction false} FilterThenFilter<T(!new)>(s: seq<T>, p: T -> bool, q: T -> bool, pq: T -> bool)
    requires forall x :: pq(x) == (p(x) && q(x))
    ensures Filter(Filter(s, p), q) == Filter(s, pq)
  {
    if |s| > 0 {
      FilterThenFilter(s[1..], p, q, pq);
      var rest := Filter(s[1..], p);
      assert Filter(s, pq) == (if pq(s[0]) then [s[0]] else []) + Filter(s[1..], pq);
      if p(s[0]) {
        assert Filter(s, p) == [s[0]] + rest;
        FilterAppend([s[0]], rest, q);
        assert [s[0]][1..] == [];
        assert Filter([s[0]], q) == (if q(s[0]) then [s[0]] else []) + Filter([], q);
      } else {
        assert Filter(s, p) == rest;
      }
    }
  }

  /** Two selections by disjoint predicates together hold at most all of `s`,
      and exactly all of it when every element satisfies one of them. */
  lemma {:induction false} FilterPartition<T(!new)>(s: seq<T>, p: T -> bool, q: T -> bool)
    requires forall x :: !(p(x) && q(x))
    ensures |Filter(s, p)| + |Filter(s, q)| <= |s|
    ensures |Filter(s, p)| + |Filter(s, q)| == |s| <==> forall i :: 0 <= i < |s| ==> p(s[i]) || q(s[i])
  {
    if |s| > 0 {
      FilterPartition(s[1..], p, q);
      assert forall i :: 0 < i < |s| ==> s[i] == s[1..][i - 1];
      if !(p(s[0]) || q(s[0])) {
        assert |Filter(s, p)| + |Filter(s, q)| < |s|;
      }
    }
  }

  /** For a sequence without repetitions, the size of the selection is the
      number of distinct values satisfying `keep`, collected in `values`. */
  lemma {:induction false} FilterCardinality<T(!new)>(s: seq<T>, keep: T -> bool, values: set<T>)
    requires Distinct(s)
    requires forall x :: x in values <==> x in s && keep(x)
    ensures |Filter(s, keep)| == |values|
  {
    if |s| == 0 {
      assert values == {};
    } else {
      var tail := s[1..];
      assert Distinct(tail) by {
        forall i, j | 0 <= i < j < |tail| ensures tail[i] != tail[j] {
          assert tail[i] == s[i + 1] && tail[j] == s[j + 1];
        }
      }
      assert s[0] !in tail by {
        forall j | 0 <= j < |tail| ensures tail[j] != s[0] {
          assert tail[j] == s[j + 1];
        }
      }
      assert s == [s[0]] + tail;
      var rest := values - {s[0]};
      assert forall x :: x in rest <==> x in tail && keep(x);
      FilterCardinality(tail, keep, rest);
      if keep(s[0]) {
        assert values == rest + {s[0]};
      } else {
        assert values == rest;
      }
    }
  }

  /** Number of distinct values of `key` that occur in `selected`. */
  function CountPresent<T(==)>(key: seq<T>, selected: seq<T>): nat
  {
    |set x | x in key && x in selected|
  }

  /** Membership in `selected`, as a selection predicate. */
  function InSelection<T(==)>(selected: seq<T>): T -> bool
  {
    x => x in selected
  }

  /** For a key without repetitions, walking the key and keeping what is
      selected finds exactly `CountPresent` values; that count is at most the
      key's length, and equal to it exactly when all of the key is selected. */
  lemma CountPresentIsHits<T(!new)>(key: seq<T>, selected: seq<T>)
    requires Distinct(key)
    ensures |Filter(key, InSelection(selected))| == CountPresent(key, selected)
    ensures CountPresent(key, selected) <= |key|
    ensures CountPresent(key, selected) == |key| <==> forall x :: x in key ==> x in selected
  {
    var keep := InSelection(selected);
    assert forall x :: keep(x) == (x in selected);
    FilterCardinality(key, keep, set x | x in key && x in selected);
    FilterKeepsAllIff(key, keep);
  }

  /** `CountPresent` sees only which key values are selected: not their
      order in `selected`, nor any non-key values beside them. */
  lemma CountPresentByMembership<T(!new)>(key: seq<T>, sel1: seq<T>, sel2: seq<T>)
    requires forall x :: x in key ==> (x in sel1 <==> x in sel2)
    ensures CountPresent(key, sel1) == CountPresent(key, sel2)
  {
    assert (set x | x in key && x in sel1) == (set x | x in key && x in sel2);
  }
}
