/**
 The application's fixed catalog, `RECIPES`, reduced to id and cuisine.
 */
module Catalog {
  import opened VisibilityPolicy

  const Recipes: seq<Item> := [
    Item("1", "Filipino"),
    Item("2", "Filipino"),
    Item("3", "Japanese"),
    Item("4", "Japanese"),
    Item("5", "Italian"),
    Item("6", "Italian"),
    Item("7", "Indian"),
    Item("8", "Indian")
  ]

  function Ids(items: seq<Item>): (ids: seq<string>)
    ensures |ids| == |items|
  {
    if |items| == 0 then [] else [items[0].id] + Ids(items[1..])
  }

  lemma {:induction false} IdsAppend(a: seq<Item>, b: seq<Item>)
    ensures Ids(a + b) == Ids(a) + Ids(b)
  {
    if |a| > 0 {
      assert (a + b)[1..] == a[1..] + b;
      IdsAppend(a[1..], b);
    } else {
      assert a + b == b;
    }
  }
}
