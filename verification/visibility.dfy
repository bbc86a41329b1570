/**
 The visibility policy: `computeVisibleRecipes`, which turns the catalog, the
 dominant category and the mode into the ordered list of cards to show.
 */
module VisibilityPolicy {
  import opened Options
  import opened InteractionLedger

  /** A recipe as the policy sees it: only the id and the category matter here. */
  datatype Item = Item(id: string, category: Category)

  /** JavaScript truthiness of the resolver's result: `null` and `""` are both falsy. */
  predicate IsTruthy(dominant: Option<Category>): (b: bool)
    ensures !b <==> dominant in {None, Some("")}
  {
    dominant.Some? && dominant.value != ""
  }

  /** The items of category `c`, in catalog order. */
  function Matching(s: seq<Item>, c: Category): (r: seq<Item>)
    ensures forall x :: x in r ==> x.category == c
  {
    if |s| == 0 then []
    else (if s[0].category == c then [s[0]] else []) + Matching(s[1..], c)
  }

  /** The items of any other category, in catalog order. */
  function Others(s: seq<Item>, c: Category): (r: seq<Item>)
    ensures forall x :: x in r ==> x.category != c
  {
    if |s| == 0 then []
    else (if s[0].category != c then [s[0]] else []) + Others(s[1..], c)
  }

  /**
   `computeVisibleRecipes`: the whole catalog while no (truthy) category dominates;
   only the dominant category when the inclusive switch is off; otherwise the
   dominant category first and everything else after it.
   */
  function ComputeVisible(catalog: seq<Item>, dominant: Option<Category>, inclusive: bool): (r: seq<Item>)
    ensures forall x :: x in r ==> x in catalog
    ensures |r| <= |catalog|
    ensures inclusive || !IsTruthy(dominant) ==> |r| == |catalog|
    ensures !inclusive && IsTruthy(dominant) ==> forall x :: x in r ==> x.category == dominant.value
  {
    if !IsTruthy(dominant) then catalog
    else
      SplitIsPermutation(catalog, dominant.value);
      SplitMembers(catalog, dominant.value);
      if !inclusive then Matching(catalog, dominant.value)
      else Matching(catalog, dominant.value) + Others(catalog, dominant.value)
  }

  /** Both groups of the split take their items from the catalog. */
  lemma SplitMembers(s: seq<Item>, c: Category)
    ensures forall x :: x in Matching(s, c) ==> x in s
    ensures forall x :: x in Others(s, c) ==> x in s
  {
    SplitIsPermutation(s, c);
    forall x | x in Matching(s, c) ensures x in s {
      assert x in multiset(Matching(s, c));
    }
    forall x | x in Others(s, c) ensures x in s {
      assert x in multiset(Others(s, c));
    }
  }

  /** `a` can be obtained from `b` by deleting items. */
  predicate IsSubsequence(a: seq<Item>, b: seq<Item>)
    decreases |b|
  {
    || |a| == 0
    || (&& |b| > 0
        && ((a[0] == b[0] && IsSubsequence(a[1..], b[1..])) || IsSubsequence(a, b[1..])))
  }

  /** Every item of category `c` comes before every item of another category. */
  predicate Partitioned(s: seq<Item>, c: Category) {
    forall i, j :: 0 <= i < j < |s| && s[j].category == c ==> s[i].category == c
  }

  lemma {:induction false} SubsequenceMultiset(a: seq<Item>, b: seq<Item>)
    requires IsSubsequence(a, b)
    ensures multiset(a) <= multiset(b)
    decreases |b|
  {
    if |a| > 0 {
      assert b == [b[0]] + b[1..];
      if a[0] == b[0] && IsSubsequence(a[1..], b[1..]) {
        assert a == [a[0]] + a[1..];
        SubsequenceMultiset(a[1..], b[1..]);
      } else {
        SubsequenceMultiset(a, b[1..]);
      }
    }
  }

  /** Each item of category `c` occurs in `Matching(s, c)` as often as in `s`, and no other item does;
      likewise for `Others`. */
  lemma {:induction false} FilterCounts(s: seq<Item>, c: Category)
    ensures forall x: Item :: multiset(Matching(s, c))[x] == if x.category == c then multiset(s)[x] else 0
    ensures forall x: Item :: multiset(Others(s, c))[x] == if x.category != c then multiset(s)[x] else 0
  {
    if |s| > 0 {
      FilterCounts(s[1..], c);
      var h := if s[0].category == c then [s[0]] else [];
      var k := if s[0].category != c then [s[0]] else [];
      assert multiset(s) == multiset{s[0]} + multiset(s[1..]) by {
        assert s == [s[0]] + s[1..];
      }
      assert multiset(Matching(s, c)) == multiset(h) + multiset(Matching(s[1..], c));
      assert multiset(Others(s, c)) == multiset(k) + multiset(Others(s[1..], c));
      forall x: Item
        ensures multiset(Matching(s, c))[x] == if x.category == c then multiset(s)[x] else 0
        ensures multiset(Others(s, c))[x] == if x.category != c then multiset(s)[x] else 0
      {
        assert multiset(s)[x] == multiset{s[0]}[x] + multiset(s[1..])[x];
      }
    }
  }

  lemma {:induction false} MatchingIsSubsequence(s: seq<Item>, c: Category)
    ensures IsSubsequence(Matching(s, c), s)
    ensures IsSubsequence(Others(s, c), s)
  {
    if |s| > 0 {
      MatchingIsSubsequence(s[1..], c);
      var m, o := Matching(s, c), Others(s, c);
      if s[0].category == c {
        assert m[0] == s[0] && m[1..] == Matching(s[1..], c);
        assert o == Others(s[1..], c);
      } else {
        assert o[0] == s[0] && o[1..] == Others(s[1..], c);
        assert m == Matching(s[1..], c);
      }
    }
  }

  /**
   The exclusive list is the only list that keeps the catalog's order, holds only
   items of category `c`, and holds each such item as often as the catalog does.
   */
  lemma {:induction false} MatchingIsUniqueFilter(t: seq<Item>, s: seq<Item>, c: Category)
    requires IsSubsequence(t, s)
    requires forall x :: x in t ==> x.category == c
    requires forall x: Item :: x.category == c ==> multiset(t)[x] == multiset(s)[x]
    ensures t == Matching(s, c)
    decreases |s|
  {
    if |s| > 0 {
      var h := s[0];
      assert s == [h] + s[1..];
      if h.category != c {
        if |t| > 0 {
          assert t[0] in t;
        }
        MatchingIsUniqueFilter(t, s[1..], c);
      } else {
        assert multiset(t)[h] == multiset(s)[h] > 0;
        assert t == [t[0]] + t[1..];
        if t[0] == h && IsSubsequence(t[1..], s[1..]) {
          MatchingIsUniqueFilter(t[1..], s[1..], c);
        } else {
          SubsequenceMultiset(t, s[1..]);
          assert false;
        }
      }
    }
  }

  lemma {:induction false} FilterAppend(a: seq<Item>, b: seq<Item>, c: Category)
    ensures Matching(a + b, c) == Matching(a, c) + Matching(b, c)
    ensures Others(a + b, c) == Others(a, c) + Others(b, c)
  {
    if |a| > 0 {
      assert (a + b)[1..] == a[1..] + b;
      FilterAppend(a[1..], b, c);
    } else {
      assert a + b == b;
    }
  }

  lemma {:induction false} FilterOfFiltered(s: seq<Item>, c: Category)
    ensures Matching(Matching(s, c), c) == Matching(s, c)
    ensures Others(Matching(s, c), c) == []
    ensures Matching(Others(s, c), c) == []
    ensures Others(Others(s, c), c) == Others(s, c)
  {
    if |s| > 0 {
      FilterOfFiltered(s[1..], c);
      var h := if s[0].category == c then [s[0]] else [];
      var k := if s[0].category != c then [s[0]] else [];
      FilterAppend(h, Matching(s[1..], c), c);
      FilterAppend(k, Others(s[1..], c), c);
    }
  }

  /** Splitting by category loses nothing: the two groups together are the catalog. */
  lemma {:induction false} SplitIsPermutation(s: seq<Item>, c: Category)
    ensures multiset(Matching(s, c)) + multiset(Others(s, c)) == multiset(s)
    ensures |Matching(s, c)| + |Others(s, c)| == |s|
  {
    if |s| > 0 {
      assert s == [s[0]] + s[1..];
      SplitIsPermutation(s[1..], c);
    }
  }

  /** A partitioned list is its own items of category `c` followed by the rest. */
  lemma {:induction false} PartitionedSplits(t: seq<Item>, c: Category)
    requires Partitioned(t, c)
    ensures t == Matching(t, c) + Others(t, c)
  {
    if |t| > 0 {
      assert Partitioned(t[1..], c) by {
        forall i, j | 0 <= i < j < |t[1..]| && t[1..][j].category == c
          ensures t[1..][i].category == c
        {
          assert t[i + 1] == t[1..][i] && t[j + 1] == t[1..][j];
        }
      }
      PartitionedSplits(t[1..], c);
    }
  }

  /** With no truthy dominant category the catalog is shown whole and in order, in either mode. */
  lemma ColdStartShowsCatalog(catalog: seq<Item>, dominant: Option<Category>, inclusive: bool)
    requires !IsTruthy(dominant)
    ensures ComputeVisible(catalog, dominant, inclusive) == catalog
  {
  }

  /**
   Exclusive mode: the visible list keeps the catalog's order, holds only items of the
   dominant category and every one of them; it may be empty. Its length is the
   catalog's length less the items of other categories.
   */
  lemma ExclusiveIsOrderedFilter(catalog: seq<Item>, d: Category)
    requires d != ""
    ensures var r := ComputeVisible(catalog, Some(d), false);
      && IsSubsequence(r, catalog)
      && (forall x :: x in r ==> x.category == d)
      && (forall x: Item :: x.category == d ==> multiset(r)[x] == multiset(catalog)[x])
      && |r| == |catalog| - |Others(catalog, d)|
      && (r == [] <==> forall x :: x in catalog ==> x.category != d)
  {
    var r := ComputeVisible(catalog, Some(d), false);
    MatchingIsSubsequence(catalog, d);
    SplitIsPermutation(catalog, d);
    FilterCounts(catalog, d);
    if r != [] {
      assert r[0] in r;
      assert multiset(catalog)[r[0]] > 0;
    }
    if r == [] {
      forall x | x in catalog
        ensures x.category != d
      {
        assert multiset(catalog)[x] > 0;
      }
    }
  }

  /**
   Inclusive mode: the visible list is a rearrangement of the whole catalog in which
   every item of the dominant category comes first, and each of the two groups keeps
   its catalog order.
   */
  lemma InclusiveIsStablePartition(catalog: seq<Item>, d: Category)
    requires d != ""
    ensures var r := ComputeVisible(catalog, Some(d), true);
      && multiset(r) == multiset(catalog)
      && |r| == |catalog|
      && Partitioned(r, d)
      && Matching(r, d) == Matching(catalog, d)
      && Others(r, d) == Others(catalog, d)
  {
    var m := Matching(catalog, d);
    var o := Others(catalog, d);
    var r := m + o;
    SplitIsPermutation(catalog, d);
    FilterAppend(m, o, d);
    FilterOfFiltered(catalog, d);
    forall i, j | 0 <= i < j < |r| && r[j].category == d
      ensures r[i].category == d
    {
      if i >= |m| {
        assert false;
      } else {
        assert r[i] == m[i] && r[i] in m;
      }
    }
  }

  /**
   The inclusive list is the only partitioned list whose two groups are the
   catalog's two groups in catalog order.
   */
  lemma InclusiveIsUniquePartition(t: seq<Item>, catalog: seq<Item>, d: Category)
    requires d != ""
    requires Partitioned(t, d)
    requires Matching(t, d) == Matching(catalog, d) && Others(t, d) == Others(catalog, d)
    ensures t == ComputeVisible(catalog, Some(d), true)
  {
    PartitionedSplits(t, d);
  }
}
