/**
 The preference resolver: `getDominantCuisine`, a scan of the ledger in enumeration
 order that keeps a running maximum, starting from 0, and replaces the current
 choice only on a strictly greater count.
 */
module PreferenceResolver {
  import opened Options
  import opened PropertyKeys
  import opened InteractionLedger

  /** The source's loop from entry `i` on, with the running `maxCount` and `dominant`. */
  function Scan(l: Ledger, i: nat, maxCount: nat, dominant: Option<Category>): Option<Category>
    requires i <= |l|
    decreases |l| - i
  {
    if i == |l| then dominant
    else if l[i].count > maxCount then Scan(l, i + 1, l[i].count, Some(l[i].category))
    else Scan(l, i + 1, maxCount, dominant)
  }

  /** `getDominantCuisine()`: `None` plays the part of the source's `null`. */
  function Dominant(l: Ledger): (r: Option<Category>)
    ensures r == None <==> AllZeroIn(l, |l|)
    ensures r.Some? ==> r.value in Keys(l)
  {
    ScanFromStart(l);
    Scan(l, 0, 0, None)
  }

  /** Among the first `n` entries, `k` is the first one holding the largest count, and
      that count is positive. */
  predicate FirstMaximumIn(l: Ledger, n: nat, k: nat) {
    && k < n <= |l|
    && l[k].count > 0
    && (forall j :: 0 <= j < n ==> l[j].count <= l[k].count)
    && (forall j :: 0 <= j < k ==> l[j].count < l[k].count)
  }

  predicate AllZeroIn(l: Ledger, n: nat)
    requires n <= |l|
  {
    forall j :: 0 <= j < n ==> l[j].count == 0
  }

  /**
   What the loop knows after visiting the first `i` entries: nothing chosen and
   every count so far zero, or entry `k` chosen as the first maximum so far.
   */
  predicate ScanInvariant(l: Ledger, i: nat, maxCount: nat, dominant: Option<Category>, k: nat)
    requires i <= |l|
  {
    || (dominant == None && maxCount == 0 && AllZeroIn(l, i))
    || (FirstMaximumIn(l, i, k) && dominant == Some(l[k].category) && maxCount == l[k].count)
  }

  /** The whole loop, started as the source starts it, chooses nothing exactly when every
      count is zero, and otherwise chooses one of the ledger's keys. */
  lemma ScanFromStart(l: Ledger)
    ensures Scan(l, 0, 0, None) == None <==> AllZeroIn(l, |l|)
    ensures Scan(l, 0, 0, None).Some? ==> Scan(l, 0, 0, None).value in Keys(l)
  {
    var w := ScanCorrect(l, 0, 0, None, 0);
    if Scan(l, 0, 0, None).Some? {
      assert Keys(l)[w] == l[w].category;
      assert l[w].count > 0;
    }
  }

  /** One turn of the loop keeps its invariant. */
  lemma ScanStep(l: Ledger, i: nat, maxCount: nat, dominant: Option<Category>, k: nat)
    requires i < |l|
    requires ScanInvariant(l, i, maxCount, dominant, k)
    ensures l[i].count > maxCount ==>
      Scan(l, i, maxCount, dominant) == Scan(l, i + 1, l[i].count, Some(l[i].category))
      && ScanInvariant(l, i + 1, l[i].count, Some(l[i].category), i)
    ensures l[i].count <= maxCount ==>
      Scan(l, i, maxCount, dominant) == Scan(l, i + 1, maxCount, dominant)
      && ScanInvariant(l, i + 1, maxCount, dominant, k)
  {
  }

  /**
   From any point where the invariant holds, the loop ends with no choice and all
   counts zero, or with the first maximum of the whole ledger, returned as `w`.
   */
  lemma {:induction false} ScanCorrect(l: Ledger, i: nat, maxCount: nat, dominant: Option<Category>, k: nat)
    returns (w: nat)
    requires i <= |l|
    requires ScanInvariant(l, i, maxCount, dominant, k)
    ensures
      || (Scan(l, i, maxCount, dominant) == None && AllZeroIn(l, |l|))
      || (FirstMaximumIn(l, |l|, w) && Scan(l, i, maxCount, dominant) == Some(l[w].category))
    decreases |l| - i
  {
    if i == |l| {
      w := k;
    } else {
      ScanStep(l, i, maxCount, dominant, k);
      if l[i].count > maxCount {
        w := ScanCorrect(l, i + 1, l[i].count, Some(l[i].category), i);
      } else {
        w := ScanCorrect(l, i + 1, maxCount, dominant, k);
      }
    }
  }

  /**
   The resolver's result, characterised without the loop: no category exactly when
   no entry has a positive count; otherwise the category of the first entry, in
   enumeration order, whose count is the largest.
   */
  lemma DominantIsFirstMaximum(l: Ledger)
    ensures Dominant(l) == None <==> AllZeroIn(l, |l|)
    ensures Dominant(l) != None ==>
      exists k: nat :: FirstMaximumIn(l, |l|, k) && Dominant(l) == Some(l[k].category)
  {
    var w := ScanCorrect(l, 0, 0, None, 0);
    if Dominant(l) != None {
      assert FirstMaximumIn(l, |l|, w) && Dominant(l) == Some(l[w].category);
    }
  }

  /** On a reachable ledger there is no dominant category exactly when nothing was recorded. */
  lemma DominantNoneIffEmpty(l: Ledger)
    requires Valid(l)
    ensures Dominant(l) == None <==> |l| == 0
  {
    DominantIsFirstMaximum(l);
    if |l| > 0 {
      assert l[0].count >= 1;
    }
  }

  /**
   On a reachable ledger the dominant category is a recorded key whose count is at
   least that of every category, and every key enumerated before it has a strictly
   smaller count: ties go to the key enumerated first.
   */
  lemma DominantIsMostCookedFirstEnumerated(l: Ledger, d: Category)
    requires Valid(l)
    requires Dominant(l) == Some(d)
    ensures d in Keys(l)
    ensures forall c :: Count(l, c) <= Count(l, d)
    ensures exists k :: (0 <= k < |l| && l[k].category == d &&
                         forall j :: 0 <= j < k ==> Count(l, l[j].category) < Count(l, d))
  {
    DominantIsFirstMaximum(l);
    var k: nat :| FirstMaximumIn(l, |l|, k) && Dominant(l) == Some(l[k].category);
    assert Keys(l)[k] == d;
    CountAt(l, k);
    forall c
      ensures Count(l, c) <= Count(l, d)
    {
      if c in Keys(l) {
        var j :| 0 <= j < |l| && Keys(l)[j] == c;
        CountAt(l, j);
      } else {
        CountAbsentIsZero(l);
      }
    }
    forall j | 0 <= j < k
      ensures Count(l, l[j].category) < Count(l, d)
    {
      CountAt(l, j);
    }
  }

  /**
   Tie-break by first click: one click on `a` then one on `b` makes `a` dominant, and
   the reverse order makes `b` dominant, for categories that are not array indices.
   */
  lemma TieGoesToFirstRecorded(a: Category, b: Category)
    requires a != b && !IsIndexKey(a) && !IsIndexKey(b)
    ensures Dominant(Record(Record([], a), b)) == Some(a)
    ensures Dominant(Record(Record([], b), a)) == Some(b)
  {
    TwoClicksOnce(a, b);
    TwoClicksOnce(b, a);
  }

  lemma TwoClicksOnce(a: Category, b: Category)
    requires a != b && !IsIndexKey(a) && !IsIndexKey(b)
    ensures Record(Record([], a), b) == [Entry(a, 1), Entry(b, 1)]
    ensures Dominant([Entry(a, 1), Entry(b, 1)]) == Some(a)
  {
    RecordKeepsKeyOrder([], a);
    assert Record([], a) == [Entry(a, 1)];
    RecordKeepsKeyOrder([Entry(a, 1)], b);
    var l := [Entry(a, 1), Entry(b, 1)];
    assert Scan(l, 0, 0, None) == Scan(l, 1, 1, Some(a));
    assert Scan(l, 1, 1, Some(a)) == Scan(l, 2, 1, Some(a));
  }

  /**
   The same with two clicks each, recorded alternately: {a: 2, b: 2} still resolves to
   the category that was clicked first.
   */
  lemma TieAtTwoGoesToFirstRecorded(a: Category, b: Category)
    requires a != b && !IsIndexKey(a) && !IsIndexKey(b)
    ensures Dominant(Record(Record(Record(Record([], a), b), a), b)) == Some(a)
  {
    TwoClicksOnce(a, b);
    SecondRoundOfClicks(a, b);
    var l4 := [Entry(a, 2), Entry(b, 2)];
    assert Scan(l4, 0, 0, None) == Scan(l4, 1, 2, Some(a));
    assert Scan(l4, 1, 2, Some(a)) == Scan(l4, 2, 2, Some(a));
  }

  /** A second click on each of two recorded keys raises both counts in place. */
  lemma SecondRoundOfClicks(a: Category, b: Category)
    requires a != b
    ensures Record(Record([Entry(a, 1), Entry(b, 1)], a), b) == [Entry(a, 2), Entry(b, 2)]
  {
  }

  /**
   Enumeration order is not click order when a category is an array index: after a
   click on "Filipino" and then one on "7", the tie resolves to "7", because the
   object enumerates "7" first.
   */
  lemma IndexKeyWinsTie()
    ensures Dominant(Record(Record([], "Filipino"), "7")) == Some("7")
  {
    assert IsIndexKey("7") && !IsIndexKey("Filipino");
    IndexKeyGoesFirst("Filipino", "7");
  }

  /** A click on a non-index key `a` and then on an index key `k`: `k` is enumerated
      first and wins the tie. */
  lemma IndexKeyGoesFirst(a: Category, k: Category)
    requires !IsIndexKey(a) && IsIndexKey(k)
    ensures Record(Record([], a), k) == [Entry(k, 1), Entry(a, 1)]
    ensures Dominant([Entry(k, 1), Entry(a, 1)]) == Some(k)
  {
    RecordKeepsKeyOrder([], a);
    assert Record([], a) == [Entry(a, 1)];
    IndexKeyInsertedInFront(Entry(a, 1), k);
    var l := [Entry(k, 1), Entry(a, 1)];
    assert Scan(l, 0, 0, None) == Scan(l, 1, 1, Some(k));
    assert Scan(l, 1, 1, Some(k)) == Scan(l, 2, 1, Some(k));
  }

  /** A new index key goes in front of a single non-index entry. */
  lemma IndexKeyInsertedInFront(e: Entry, k: Category)
    requires !IsIndexKey(e.category) && IsIndexKey(k)
    ensures Record([e], k) == [Entry(k, 1), e]
  {
    assert Keys([e]) == [e.category];
    assert k !in Keys([e]);
    assert Insert([e], k) == InsertIndexKey([e], k);
  }}
