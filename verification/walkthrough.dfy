/**
 Sessions played through end to end on the application's own catalog.
 */
module Walkthrough {
  import opened Options
  import opened PropertyKeys
  import opened InteractionLedger
  import opened PreferenceResolver
  import opened VisibilityPolicy
  import opened SessionController
  import opened Catalog

  /** One click on a cuisine that is not an array index, on a page with no clicks yet. */
  lemma FirstClick(s: Session, c: Category)
    requires s.ledger == [] && !IsIndexKey(c)
    ensures Cook(s, c).ledger == [Entry(c, 1)]
    ensures Dominant(Cook(s, c).ledger) == Some(c)
  {
    RecordKeepsKeyOrder([], c);
    var l := [Entry(c, 1)];
    assert Scan(l, 0, 0, None) == Scan(l, 1, 1, Some(c));
  }

  /** Two recipes of cuisine `c`, with ids `i` and `j`. */
  function Pair(i: string, j: string, c: Category): seq<Item> {
    [Item(i, c), Item(j, c)]
  }

  /** A catalog shaped like the application's: four cuisines, two recipes each, ids 1 to 8. */
  function Grouped(a: Category, b: Category, c: Category, d: Category): seq<Item> {
    Pair("1", "2", a) + Pair("3", "4", b) + Pair("5", "6", c) + Pair("7", "8", d)
  }

  /** Four distinct, truthy cuisines, none of them an array index. */
  predicate Plain(a: Category, b: Category, c: Category, d: Category) {
    && a != "" && b != "" && c != "" && d != ""
    && !IsIndexKey(a) && !IsIndexKey(b) && !IsIndexKey(c) && !IsIndexKey(d)
    && a != b && a != c && a != d && b != c && b != d && c != d
  }

  lemma RecipesGrouped()
    ensures Recipes == Grouped("Filipino", "Japanese", "Italian", "Indian")
    ensures Plain("Filipino", "Japanese", "Italian", "Indian")
  {
  }

  /** Every item of `g` is of category `k`. */
  predicate AllOf(g: seq<Item>, k: Category) {
    Matching(g, k) == g && Others(g, k) == []
  }

  /** No item of `g` is of category `k`. */
  predicate NoneOf(g: seq<Item>, k: Category) {
    Matching(g, k) == [] && Others(g, k) == g
  }

  lemma AppendOwnGroup(x: seq<Item>, g: seq<Item>, k: Category)
    requires AllOf(g, k)
    ensures Matching(x + g, k) == Matching(x, k) + g
    ensures Others(x + g, k) == Others(x, k)
  {
    FilterAppend(x, g, k);
    assert Others(x, k) + [] == Others(x, k);
  }

  lemma AppendOtherGroup(x: seq<Item>, g: seq<Item>, k: Category)
    requires NoneOf(g, k)
    ensures Matching(x + g, k) == Matching(x, k)
    ensures Others(x + g, k) == Others(x, k) + g
  {
    FilterAppend(x, g, k);
    assert Matching(x, k) + [] == Matching(x, k);
  }

  lemma PairSplit(i: string, j: string, g: Category, k: Category)
    ensures g == k ==> AllOf(Pair(i, j, g), k)
    ensures g != k ==> NoneOf(Pair(i, j, g), k)
  {
    var p, q := Pair(i, j, g), [Item(j, g)];
    assert p[1..] == q && q[1..] == [];
    assert Matching(q, k) == (if g == k then q else []) + Matching([], k);
    assert Others(q, k) == (if g != k then q else []) + Others([], k);
    assert Matching(p, k) == (if g == k then [p[0]] else []) + Matching(q, k);
    assert Others(p, k) == (if g != k then [p[0]] else []) + Others(q, k);
  }

  lemma PairIds(i: string, j: string, g: Category)
    ensures Ids(Pair(i, j, g)) == [i, j]
  {
    var p := Pair(i, j, g);
    assert p[1..] == [Item(j, g)] && p[1..][1..] == [];
  }

  /** Each pair of a grouped catalog is wholly of cuisine `k` or wholly not. */
  lemma GroupsSplit(a: Category, b: Category, c: Category, d: Category, k: Category)
    ensures a == k ==> AllOf(Pair("1", "2", a), k)
    ensures a != k ==> NoneOf(Pair("1", "2", a), k)
    ensures b == k ==> AllOf(Pair("3", "4", b), k)
    ensures b != k ==> NoneOf(Pair("3", "4", b), k)
    ensures c == k ==> AllOf(Pair("5", "6", c), k)
    ensures c != k ==> NoneOf(Pair("5", "6", c), k)
    ensures d == k ==> AllOf(Pair("7", "8", d), k)
    ensures d != k ==> NoneOf(Pair("7", "8", d), k)
  {
    PairSplit("1", "2", a, k);
    PairSplit("3", "4", b, k);
    PairSplit("5", "6", c, k);
    PairSplit("7", "8", d, k);
  }

  lemma GroupedIds(a: Category, b: Category, c: Category, d: Category)
    ensures Ids(Grouped(a, b, c, d)) == ["1", "2", "3", "4", "5", "6", "7", "8"]
  {
    var ga, gb, gc, gd := Pair("1", "2", a), Pair("3", "4", b), Pair("5", "6", c), Pair("7", "8", d);
    PairIds("1", "2", a);
    PairIds("3", "4", b);
    PairIds("5", "6", c);
    PairIds("7", "8", d);
    IdsAppend(ga, gb);
    assert Ids(ga + gb) == ["1", "2", "3", "4"];
    IdsAppend(ga + gb, gc);
    assert Ids(ga + gb + gc) == ["1", "2", "3", "4", "5", "6"];
    IdsAppend(ga + gb + gc, gd);
  }

  /** The ids once the second pair has moved to the front. */
  lemma SecondFirstIds(a: Category, b: Category, c: Category, d: Category)
    ensures Ids(Pair("3", "4", b) + (Pair("1", "2", a) + Pair("5", "6", c) + Pair("7", "8", d)))
         == ["3", "4", "1", "2", "5", "6", "7", "8"]
  {
    var ga, gb, gc, gd := Pair("1", "2", a), Pair("3", "4", b), Pair("5", "6", c), Pair("7", "8", d);
    PairIds("1", "2", a);
    PairIds("3", "4", b);
    PairIds("5", "6", c);
    PairIds("7", "8", d);
    IdsAppend(ga, gc);
    assert Ids(ga + gc) == ["1", "2", "5", "6"];
    IdsAppend(ga + gc, gd);
    assert Ids(ga + gc + gd) == ["1", "2", "5", "6", "7", "8"];
    IdsAppend(gb, ga + gc + gd);
  }

  /** The ids once the third pair has moved to the front. */
  lemma ThirdFirstIds(a: Category, b: Category, c: Category, d: Category)
    ensures Ids(Pair("5", "6", c) + (Pair("1", "2", a) + Pair("3", "4", b) + Pair("7", "8", d)))
         == ["5", "6", "1", "2", "3", "4", "7", "8"]
  {
    var ga, gb, gc, gd := Pair("1", "2", a), Pair("3", "4", b), Pair("5", "6", c), Pair("7", "8", d);
    PairIds("1", "2", a);
    PairIds("3", "4", b);
    PairIds("5", "6", c);
    PairIds("7", "8", d);
    IdsAppend(ga, gb);
    assert Ids(ga + gb) == ["1", "2", "3", "4"];
    IdsAppend(ga + gb, gd);
    assert Ids(ga + gb + gd) == ["1", "2", "3", "4", "7", "8"];
    IdsAppend(gc, ga + gb + gd);
  }

  /** How the two filters split a four-group catalog whose first group is of category `k`. */
  lemma FirstGroupSplit(a: seq<Item>, b: seq<Item>, c: seq<Item>, d: seq<Item>, k: Category)
    requires AllOf(a, k) && NoneOf(b, k) && NoneOf(c, k) && NoneOf(d, k)
    ensures Matching(a + b + c + d, k) == a
    ensures Others(a + b + c + d, k) == b + c + d
  {
    AppendOtherGroup(a, b, k);
    assert [] + b == b;
    AppendOtherGroup(a + b, c, k);
    AppendOtherGroup(a + b + c, d, k);
  }

  /** The same when the second group is the one of category `k`. */
  lemma SecondGroupSplit(a: seq<Item>, b: seq<Item>, c: seq<Item>, d: seq<Item>, k: Category)
    requires NoneOf(a, k) && AllOf(b, k) && NoneOf(c, k) && NoneOf(d, k)
    ensures Matching(a + b + c + d, k) == b
    ensures Others(a + b + c + d, k) == a + c + d
  {
    AppendOwnGroup(a, b, k);
    assert [] + b == b;
    AppendOtherGroup(a + b, c, k);
    AppendOtherGroup(a + b + c, d, k);
  }

  /** The same when the third group is the one of category `k`. */
  lemma ThirdGroupSplit(a: seq<Item>, b: seq<Item>, c: seq<Item>, d: seq<Item>, k: Category)
    requires NoneOf(a, k) && NoneOf(b, k) && AllOf(c, k) && NoneOf(d, k)
    ensures Matching(a + b + c + d, k) == c
    ensures Others(a + b + c + d, k) == a + b + d
  {
    AppendOtherGroup(a, b, k);
    AppendOwnGroup(a + b, c, k);
    assert [] + c == c;
    AppendOtherGroup(a + b + c, d, k);
  }

  /** The same when no group is of category `k`. */
  lemma NoGroupSplit(a: seq<Item>, b: seq<Item>, c: seq<Item>, d: seq<Item>, k: Category)
    requires NoneOf(a, k) && NoneOf(b, k) && NoneOf(c, k) && NoneOf(d, k)
    ensures Matching(a + b + c + d, k) == []
  {
    AppendOtherGroup(a, b, k);
    AppendOtherGroup(a + b, c, k);
    AppendOtherGroup(a + b + c, d, k);
  }

  /** A click on the first cuisine leaves the inclusive list as it was and the
      exclusive list with the first pair alone. */
  lemma FirstCuisineVisible(a: Category, b: Category, c: Category, d: Category)
    requires Plain(a, b, c, d)
    ensures ComputeVisible(Grouped(a, b, c, d), Some(a), true) == Grouped(a, b, c, d)
    ensures ComputeVisible(Grouped(a, b, c, d), Some(a), false) == Pair("1", "2", a)
  {
    GroupsSplit(a, b, c, d, a);
    FirstGroupVisible(Pair("1", "2", a), Pair("3", "4", b), Pair("5", "6", c), Pair("7", "8", d), a);
  }

  lemma FirstGroupVisible(a: seq<Item>, b: seq<Item>, c: seq<Item>, d: seq<Item>, k: Category)
    requires k != ""
    requires AllOf(a, k) && NoneOf(b, k) && NoneOf(c, k) && NoneOf(d, k)
    ensures ComputeVisible(a + b + c + d, Some(k), true) == a + b + c + d
    ensures ComputeVisible(a + b + c + d, Some(k), false) == a
  {
    FirstGroupSplit(a, b, c, d, k);
    Regroup(a, b, c, d);
  }

  /** Concatenation regrouped, kept apart so the proof above stays small. */
  lemma Regroup(a: seq<Item>, b: seq<Item>, c: seq<Item>, d: seq<Item>)
    ensures a + (b + c + d) == a + b + c + d
  {
  }

  /**
   The walk-through on any catalog shaped like the application's, from a page with
   no clicks and the switch on: a "Cook This" click on the first cuisine keeps its
   two recipes first (they already are); switching inclusive mode off leaves only
   them; reset brings the whole catalog back and keeps the switch off.
   */
  lemma WalkThroughOnGrouped(a: Category, b: Category, c: Category, d: Category, s: Session)
    requires Plain(a, b, c, d)
    requires s.ledger == [] && s.inclusive
    ensures Ids(Visible(Grouped(a, b, c, d), Cook(s, a))) == ["1", "2", "3", "4", "5", "6", "7", "8"]
    ensures Explain(Cook(s, a)) == Highlighting(a)
    ensures Ids(Visible(Grouped(a, b, c, d), SetMode(Cook(s, a), false))) == ["1", "2"]
    ensures Explain(SetMode(Cook(s, a), false)) == HidingOthers(a)
    ensures Ids(Visible(Grouped(a, b, c, d), Reset(SetMode(Cook(s, a), false)))) == ["1", "2", "3", "4", "5", "6", "7", "8"]
    ensures !Reset(SetMode(Cook(s, a), false)).inclusive
  {
    FirstClick(s, a);
    FirstCuisineVisible(a, b, c, d);
    GroupedIds(a, b, c, d);
    PairIds("1", "2", a);
  }

  /** The walk-through on the application's catalog, with Filipino as the first click. */
  lemma FilipinoWalkThrough(s: Session)
    requires s.ledger == [] && s.inclusive
    ensures Ids(Visible(Recipes, Cook(s, "Filipino"))) == ["1", "2", "3", "4", "5", "6", "7", "8"]
    ensures Explain(Cook(s, "Filipino")) == Highlighting("Filipino")
    ensures Ids(Visible(Recipes, SetMode(Cook(s, "Filipino"), false))) == ["1", "2"]
    ensures Explain(SetMode(Cook(s, "Filipino"), false)) == HidingOthers("Filipino")
    ensures Ids(Visible(Recipes, Reset(SetMode(Cook(s, "Filipino"), false)))) == ["1", "2", "3", "4", "5", "6", "7", "8"]
    ensures !Reset(SetMode(Cook(s, "Filipino"), false)).inclusive
  {
    RecipesGrouped();
    WalkThroughOnGrouped("Filipino", "Japanese", "Italian", "Indian", s);
  }

  /** In inclusive mode a first click on the second cuisine moves its two recipes to
      the top, the others keeping their order. */
  lemma SecondCuisineClickReorders(a: Category, b: Category, c: Category, d: Category, s: Session)
    requires Plain(a, b, c, d)
    requires s.ledger == [] && s.inclusive
    ensures Ids(Visible(Grouped(a, b, c, d), Cook(s, b))) == ["3", "4", "1", "2", "5", "6", "7", "8"]
  {
    var ga, gb, gc, gd := Pair("1", "2", a), Pair("3", "4", b), Pair("5", "6", c), Pair("7", "8", d);
    FirstClick(s, b);
    GroupsSplit(a, b, c, d, b);
    SecondGroupSplit(ga, gb, gc, gd, b);
    SecondFirstIds(a, b, c, d);
  }

  /** On the application's catalog: a first Japanese click puts recipes 3 and 4 first. */
  lemma JapaneseClickReorders(s: Session)
    requires s.ledger == [] && s.inclusive
    ensures Ids(Visible(Recipes, Cook(s, "Japanese"))) == ["3", "4", "1", "2", "5", "6", "7", "8"]
  {
    RecipesGrouped();
    SecondCuisineClickReorders("Filipino", "Japanese", "Italian", "Indian", s);
  }

  /** A click on a cuisine with no recipe, in exclusive mode, leaves an empty grid: a
      valid result, not an error. */
  lemma UnknownCuisineEmptiesGrid(a: Category, b: Category, c: Category, d: Category, k: Category, s: Session)
    requires Plain(a, b, c, d)
    requires k != "" && !IsIndexKey(k) && k != a && k != b && k != c && k != d
    requires s.ledger == [] && !s.inclusive
    ensures Visible(Grouped(a, b, c, d), Cook(s, k)) == []
    ensures Explain(Cook(s, k)) == HidingOthers(k)
  {
    FirstClick(s, k);
    GroupsSplit(a, b, c, d, k);
    NoGroupSplit(Pair("1", "2", a), Pair("3", "4", b), Pair("5", "6", c), Pair("7", "8", d), k);
  }

  /** On the application's catalog: a Thai click in exclusive mode shows no recipe. */
  lemma UnknownCuisineEmptiesExclusiveGrid(s: Session)
    requires s.ledger == [] && !s.inclusive
    ensures Visible(Recipes, Cook(s, "Thai")) == []
    ensures Explain(Cook(s, "Thai")) == HidingOthers("Thai")
  {
    RecipesGrouped();
    assert !IsIndexKey("Thai") by { assert !IsDigit("Thai"[0]); }
    assert "Thai"[0] != "Filipino"[0] && "Thai"[0] != "Japanese"[0];
    assert "Thai"[0] != "Italian"[0] && "Thai"[0] != "Indian"[0];
    UnknownCuisineEmptiesGrid("Filipino", "Japanese", "Italian", "Indian", "Thai", s);
  }

  /** The third cuisine clicked before the fourth, once each, in inclusive mode: the
      tie goes to the third, whose recipes move to the top. */
  lemma TieMovesFirstClickedToTop(a: Category, b: Category, c: Category, d: Category, s: Session)
    requires Plain(a, b, c, d)
    requires s.ledger == [] && s.inclusive
    ensures Ids(Visible(Grouped(a, b, c, d), Cook(Cook(s, c), d))) == ["5", "6", "1", "2", "3", "4", "7", "8"]
  {
    var ga, gb, gc, gd := Pair("1", "2", a), Pair("3", "4", b), Pair("5", "6", c), Pair("7", "8", d);
    TieGoesToFirstRecorded(c, d);
    GroupsSplit(a, b, c, d, c);
    ThirdGroupSplit(ga, gb, gc, gd, c);
    ThirdFirstIds(a, b, c, d);
  }

  /** On the application's catalog: Italian then Indian puts recipes 5 and 6 first. */
  lemma ItalianBeforeIndian(s: Session)
    requires s.ledger == [] && s.inclusive
    ensures Ids(Visible(Recipes, Cook(Cook(s, "Italian"), "Indian"))) == ["5", "6", "1", "2", "3", "4", "7", "8"]
  {
    RecipesGrouped();
    TieMovesFirstClickedToTop("Filipino", "Japanese", "Italian", "Indian", s);
  }
}
