/**
 The interaction ledger: the source's `cuisineCounts` object, one entry per category
 that has been cooked, held in the order the object enumerates its keys.
 */
module InteractionLedger {
  import opened PropertyKeys

  type Category = string

  datatype Entry = Entry(category: Category, count: nat)

  /** Entries in enumeration order. */
  type Ledger = seq<Entry>

  function Keys(l: Ledger): (ks: seq<Category>)
    ensures |ks| == |l|
    ensures forall i :: 0 <= i < |l| ==> ks[i] == l[i].category
  {
    if |l| == 0 then [] else [l[0].category] + Keys(l[1..])
  }

  /** The source's `cuisineCounts[c] || 0`: the count of `c`, or 0 when it has none. */
  function Count(l: Ledger, c: Category): nat {
    if |l| == 0 then 0
    else if l[0].category == c then l[0].count
    else Count(l[1..], c)
  }

  /** The ledger with every entry for `c` removed. */
  function Without(l: Ledger, c: Category): (r: Ledger)
    ensures c !in Keys(r)
    ensures |r| <= |l|
  {
    if |l| == 0 then []
    else if l[0].category == c then Without(l[1..], c)
    else [l[0]] + Without(l[1..], c)
  }

  predicate DistinctKeys(l: Ledger) {
    forall i, j :: 0 <= i < j < |l| ==> l[i].category != l[j].category
  }

  predicate PositiveCounts(l: Ledger) {
    forall i :: 0 <= i < |l| ==> l[i].count >= 1
  }

  predicate EnumerationOrdered(l: Ledger) {
    forall i, j :: 0 <= i < j < |l| ==> MayPrecede(l[i].category, l[j].category)
  }

  /** What every reachable ledger satisfies: one entry per key, every count at least 1,
      entries in the object's enumeration order. */
  predicate Valid(l: Ledger) {
    DistinctKeys(l) && PositiveCounts(l) && EnumerationOrdered(l)
  }

  /** Raises the count of the existing key `c` by one, in place. */
  function Bump(l: Ledger, c: Category): (r: Ledger)
    requires c in Keys(l)
    ensures |r| == |l|
    ensures forall i :: 0 <= i < |l| ==> r[i].category == l[i].category && r[i].count >= l[i].count
    ensures Keys(r) == Keys(l)
    ensures Count(r, c) == Count(l, c) + 1
    ensures forall d :: d != c ==> Count(r, d) == Count(l, d)
  {
    if l[0].category == c then [l[0].(count := l[0].count + 1)] + l[1..]
    else [l[0]] + Bump(l[1..], c)
  }

  /**
   Where the object enumerates a new array-index key `c`: behind every leading
   array-index key no larger than `c`, at the first entry that is not an array
   index or is a larger one (or at the end).
   */
  function IndexSlot(l: Ledger, c: Category): (p: nat)
    requires IsIndexKey(c)
    ensures p <= |l|
    ensures forall i :: 0 <= i < p ==> IsIndexKey(l[i].category) && IndexValue(l[i].category) <= IndexValue(c)
    ensures p < |l| ==> !IsIndexKey(l[p].category) || IndexValue(c) < IndexValue(l[p].category)
  {
    if |l| == 0 || !IsIndexKey(l[0].category) || IndexValue(c) < IndexValue(l[0].category) then 0
    else 1 + IndexSlot(l[1..], c)
  }

  /**
   Creates the array-index key `c` with count 1 at its place among the leading
   array-index keys, `IndexSlot`; every other entry keeps its relative order.
   */
  function InsertIndexKey(l: Ledger, c: Category): (r: Ledger)
    requires IsIndexKey(c) && c !in Keys(l)
    ensures |r| == |l| + 1
    ensures forall e :: e in r ==> e in l || e == Entry(c, 1)
    ensures forall d :: d in Keys(r) <==> d in Keys(l) || d == c
    ensures Count(r, c) == 1
    ensures forall d :: d != c ==> Count(r, d) == Count(l, d)
    ensures Without(r, c) == Without(l, c)
  {
    if |l| == 0 || !IsIndexKey(l[0].category) || IndexValue(c) < IndexValue(l[0].category) then
      [Entry(c, 1)] + l
    else
      [l[0]] + InsertIndexKey(l[1..], c)
  }

  /** The new key lands exactly at `IndexSlot`: the entries before it and after it are
      the old ledger's, unmoved relative to each other. */
  lemma {:induction false} InsertIndexKeyAtSlot(l: Ledger, c: Category)
    requires IsIndexKey(c) && c !in Keys(l)
    ensures InsertIndexKey(l, c) == l[..IndexSlot(l, c)] + [Entry(c, 1)] + l[IndexSlot(l, c)..]
  {
    if |l| == 0 || !IsIndexKey(l[0].category) || IndexValue(c) < IndexValue(l[0].category) {
      assert l[..0] == [] && l[0..] == l;
    } else {
      var t := l[1..];
      assert c !in Keys(t) by { assert Keys(l) == [l[0].category] + Keys(t); }
      InsertIndexKeyAtSlot(t, c);
      SpliceCons(l, InsertIndexKey(t, c), IndexSlot(t, c), Entry(c, 1));
    }
  }

  /** Putting `l`'s head in front of a splice into its tail splices one place later. */
  lemma SpliceCons(l: Ledger, r: Ledger, p: nat, e: Entry)
    requires 0 < |l| && p <= |l| - 1
    requires r == l[1..][..p] + [e] + l[1..][p..]
    ensures [l[0]] + r == l[..p + 1] + [e] + l[p + 1..]
  {
    assert l[..p + 1] == [l[0]] + l[1..][..p];
    assert l[p + 1..] == l[1..][p..];
  }

  /** A ledger with a new first entry is valid exactly when the rest is valid and the
      entry has a positive count and a key that is new and may come first. */
  lemma ValidCons(e: Entry, l: Ledger)
    ensures Valid([e] + l) <==>
      && Valid(l) && e.count >= 1
      && forall x :: x in l ==> x.category != e.category && MayPrecede(e.category, x.category)
  {
    var r := [e] + l;
    assert forall i :: 0 < i < |r| ==> r[i] == l[i - 1];
    if Valid(r) {
      forall x | x in l
        ensures x.category != e.category && MayPrecede(e.category, x.category)
      {
        var j :| 0 <= j < |l| && l[j] == x;
        assert r[0] == e && r[j + 1] == x;
        assert MayPrecede(r[0].category, r[j + 1].category);
        assert r[0].category != r[j + 1].category;
      }
      assert PositiveCounts(l) by {
        forall j | 0 <= j < |l| ensures l[j].count >= 1 { assert r[j + 1] == l[j]; }
      }
      assert DistinctKeys(l) by {
        forall i, j | 0 <= i < j < |l| ensures l[i].category != l[j].category {
          assert r[i + 1] == l[i] && r[j + 1] == l[j];
        }
      }
      assert EnumerationOrdered(l) by {
        forall i, j | 0 <= i < j < |l| ensures MayPrecede(l[i].category, l[j].category) {
          assert r[i + 1] == l[i] && r[j + 1] == l[j];
        }
      }
    }
  }

  /** A new array-index key that may precede every entry is valid at the front. */
  lemma FrontInsertValid(l: Ledger, c: Category)
    requires IsIndexKey(c) && c !in Keys(l)
    requires Valid(l)
    requires |l| == 0 || !IsIndexKey(l[0].category) || IndexValue(c) < IndexValue(l[0].category)
    ensures Valid([Entry(c, 1)] + l)
  {
    forall x | x in l
      ensures x.category != c && MayPrecede(c, x.category)
    {
      var j :| 0 <= j < |l| && l[j] == x;
      assert Keys(l)[j] == x.category;
      if IsIndexKey(x.category) && j > 0 {
        assert MayPrecede(l[0].category, l[j].category);
      }
    }
    ValidCons(Entry(c, 1), l);
  }

  lemma {:induction false} InsertIndexKeyValid(l: Ledger, c: Category)
    requires IsIndexKey(c) && c !in Keys(l)
    requires Valid(l)
    ensures Valid(InsertIndexKey(l, c))
  {
    if |l| == 0 || !IsIndexKey(l[0].category) || IndexValue(c) < IndexValue(l[0].category) {
      FrontInsertValid(l, c);
    } else {
      assert l == [l[0]] + l[1..];
      ValidCons(l[0], l[1..]);
      InsertIndexKeyValid(l[1..], c);
      InsertBehindValid(l, c);
    }
  }

  /** Inserting behind a smaller array-index head keeps the head first. */
  lemma InsertBehindValid(l: Ledger, c: Category)
    requires IsIndexKey(c) && c !in Keys(l)
    requires |l| > 0 && IsIndexKey(l[0].category) && IndexValue(c) >= IndexValue(l[0].category)
    requires Valid(l) && Valid(InsertIndexKey(l[1..], c))
    ensures Valid([l[0]] + InsertIndexKey(l[1..], c))
  {
    assert l == [l[0]] + l[1..];
    ValidCons(l[0], l[1..]);
    var rest := InsertIndexKey(l[1..], c);
    forall x | x in rest
      ensures x.category != l[0].category && MayPrecede(l[0].category, x.category)
    {
      if x == Entry(c, 1) {
        assert Keys(l)[0] == l[0].category;
      }
    }
    ValidCons(l[0], rest);
  }

  /** Count on a ledger extended at the end. */
  lemma {:induction false} CountAppend(l: Ledger, e: Entry, d: Category)
    ensures Count(l + [e], d) == if d in Keys(l) then Count(l, d) else if e.category == d then e.count else 0
  {
    if |l| > 0 {
      assert (l + [e])[1..] == l[1..] + [e];
      CountAppend(l[1..], e, d);
    }
  }

  /** Creates the absent key `c` with count 1 where the object would enumerate it. */
  function Insert(l: Ledger, c: Category): (r: Ledger)
    requires c !in Keys(l)
    ensures Count(r, c) == 1
    ensures forall d :: d != c ==> Count(r, d) == Count(l, d)
    ensures forall d :: d in Keys(r) <==> d in Keys(l) || d == c
  {
    if IsIndexKey(c) then InsertIndexKey(l, c)
    else
      var r := l + [Entry(c, 1)];
      assert forall d :: Count(r, d) == if d in Keys(l) then Count(l, d) else if c == d then 1 else 0 by {
        forall d { CountAppend(l, Entry(c, 1), d); }
      }
      CountAbsentIsZero(l);
      assert Keys(r) == Keys(l) + [c];
      r
  }

  lemma {:induction false} CountAbsentIsZero(l: Ledger)
    ensures forall d :: d !in Keys(l) ==> Count(l, d) == 0
  {
    if |l| > 0 {
      CountAbsentIsZero(l[1..]);
    }
  }

  /**
   One "Cook This" click on category `c`: `cuisineCounts[c] = (cuisineCounts[c] || 0) + 1`.
   */
  function Record(l: Ledger, c: Category): (r: Ledger)
    ensures Count(r, c) == Count(l, c) + 1
    ensures forall d :: d != c ==> Count(r, d) == Count(l, d)
  {
    CountAbsentIsZero(l);
    if c in Keys(l) then Bump(l, c) else Insert(l, c)
  }

  /** The count the ledger reports for a key is the count stored in that key's entry. */
  lemma {:induction false} CountAt(l: Ledger, i: nat)
    requires DistinctKeys(l) && i < |l|
    ensures Count(l, l[i].category) == l[i].count
  {
    if i > 0 {
      assert l[0].category != l[i].category;
      assert l[1..][i - 1] == l[i];
      CountAt(l[1..], i - 1);
    }
  }

  lemma {:induction false} WithoutAbsent(l: Ledger, c: Category)
    requires c !in Keys(l)
    ensures Without(l, c) == l
  {
    if |l| > 0 {
      assert Keys(l) == [l[0].category] + Keys(l[1..]);
      WithoutAbsent(l[1..], c);
    }
  }

  /** A ledger with the same keys in the same places and no smaller counts stays valid. */
  lemma ValidUnderRaisedCounts(l: Ledger, r: Ledger)
    requires Valid(l) && |r| == |l|
    requires forall i :: 0 <= i < |l| ==> r[i].category == l[i].category && r[i].count >= l[i].count
    ensures Valid(r)
  {
  }

  /** Appending a fresh key that is not an array index keeps a ledger valid. */
  lemma AppendPlainValid(l: Ledger, c: Category)
    requires Valid(l) && c !in Keys(l) && !IsIndexKey(c)
    ensures Valid(l + [Entry(c, 1)])
  {
  }

  /** Recording keeps every reachable ledger reachable. */
  lemma RecordPreservesValid(l: Ledger, c: Category)
    requires Valid(l)
    ensures Valid(Record(l, c))
  {
    if c in Keys(l) {
      ValidUnderRaisedCounts(l, Bump(l, c));
    } else if IsIndexKey(c) {
      InsertIndexKeyValid(l, c);
    } else {
      AppendPlainValid(l, c);
    }
  }

  /**
   Recording never moves the existing keys: a known key keeps its place, and a new
   key is inserted without disturbing the others; a new key that is not an array
   index is appended at the end.
   */
  lemma RecordKeepsKeyOrder(l: Ledger, c: Category)
    ensures forall d :: d in Keys(Record(l, c)) <==> d in Keys(l) || d == c
    ensures c in Keys(l) ==> Keys(Record(l, c)) == Keys(l)
    ensures c !in Keys(l) ==> Without(Record(l, c), c) == l && |Record(l, c)| == |l| + 1
    ensures c !in Keys(l) && !IsIndexKey(c) ==> Record(l, c) == l + [Entry(c, 1)]
  {
    if c !in Keys(l) {
      WithoutAbsent(l, c);
      if !IsIndexKey(c) {
        WithoutAppend(l, Entry(c, 1));
      }
    }
  }

  lemma {:induction false} WithoutAppend(l: Ledger, e: Entry)
    ensures Without(l + [e], e.category) == Without(l, e.category)
  {
    if |l| > 0 {
      assert (l + [e])[1..] == l[1..] + [e];
      WithoutAppend(l[1..], e);
    } else {
      assert [e][1..] == [];
    }
  }
}
