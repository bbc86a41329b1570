/**
 The session: the source's two globals `cuisineCounts` and `inclusiveMode`, the three
 handlers that change them (`handleCook`, `resetApp`, the toggle's change listener),
 and the choices `renderUI` makes from them: which explanation to show and which
 cards get the "Best Match" marker.
 */
module SessionController {
  import opened Options
  import opened InteractionLedger
  import opened PreferenceResolver
  import opened VisibilityPolicy

  datatype Session = Session(ledger: Ledger, inclusive: bool)

  /** Page load: an empty ledger and the inclusive switch on. */
  const Start: Session := Session([], true)

  /** `handleCook(c)`: one more click on `c`; the mode is not touched. */
  function Cook(s: Session, c: Category): (r: Session)
    ensures r.inclusive == s.inclusive
    ensures Count(r.ledger, c) == Count(s.ledger, c) + 1
    ensures forall d :: d != c ==> Count(r.ledger, d) == Count(s.ledger, d)
  {
    s.(ledger := Record(s.ledger, c))
  }

  /** `resetApp()`: forget every click; the mode is not touched. */
  function Reset(s: Session): (r: Session)
    ensures r.inclusive == s.inclusive
    ensures forall c :: Count(r.ledger, c) == 0
    ensures Dominant(r.ledger) == None
  {
    s.(ledger := [])
  }

  /** The toggle's change listener: the mode becomes the switch's new state. */
  function SetMode(s: Session, checked: bool): (r: Session)
    ensures r.inclusive == checked
    ensures forall c :: Count(r.ledger, c) == Count(s.ledger, c)
    ensures Dominant(r.ledger) == Dominant(s.ledger)
  {
    s.(inclusive := checked)
  }

  /** The clicks `cs`, in order, with no reset in between. */
  function CookAll(s: Session, cs: seq<Category>): Session
    decreases |cs|
  {
    if |cs| == 0 then s else CookAll(Cook(s, cs[0]), cs[1..])
  }

  /** The cards `renderUI` shows. */
  function Visible(catalog: seq<Item>, s: Session): (r: seq<Item>)
    ensures forall x :: x in r ==> x in catalog
    ensures ColdStart(s) ==> r == catalog
    ensures s.inclusive ==> |r| == |catalog|
    ensures !ColdStart(s) && !s.inclusive ==> forall x :: x in r ==> x.category == Dominant(s.ledger).value
  {
    ComputeVisible(catalog, Dominant(s.ledger), s.inclusive)
  }

  /** The page behaves as before any click: `!dominantCuisine` holds. */
  predicate ColdStart(s: Session) {
    !IsTruthy(Dominant(s.ledger))
  }

  /** Which explanation `renderUI` shows, with the category it names. */
  datatype Explanation =
    | NoExplanation
    | Highlighting(category: Category)
    | HidingOthers(category: Category)

  function Explain(s: Session): (r: Explanation)
    ensures r == NoExplanation <==> ColdStart(s)
    ensures r != NoExplanation ==> Dominant(s.ledger) == Some(r.category) && r.category != ""
    ensures r.Highlighting? <==> !ColdStart(s) && s.inclusive
  {
    var d := Dominant(s.ledger);
    if !IsTruthy(d) then NoExplanation
    else if s.inclusive then Highlighting(d.value)
    else HidingOthers(d.value)
  }

  /** The card for `item` carries the "recommended" class and the "Best Match" badge. */
  predicate BestMatch(s: Session, item: Item): (b: bool)
    ensures b <==> Explain(s) == Highlighting(item.category)
  {
    var d := Dominant(s.ledger);
    s.inclusive && IsTruthy(d) && item.category == d.value
  }

  /** Every session the handlers can produce has a valid ledger. */
  predicate Reachable(s: Session) {
    Valid(s.ledger)
  }

  /** The page as loaded: nothing clicked, the switch on, the whole catalog shown,
      no explanation and no badge. */
  lemma StartIsColdStart(catalog: seq<Item>)
    ensures Start.inclusive
    ensures forall c :: Count(Start.ledger, c) == 0
    ensures ColdStart(Start)
    ensures Visible(catalog, Start) == catalog
    ensures Explain(Start) == NoExplanation
    ensures forall item :: !BestMatch(Start, item)
  {
  }

  lemma HandlersPreserveReachable(s: Session, c: Category, checked: bool)
    ensures Reachable(Start)
    ensures Reachable(s) ==> Reachable(Cook(s, c))
    ensures Reachable(Reset(s))
    ensures Reachable(s) ==> Reachable(SetMode(s, checked))
  {
    if Reachable(s) {
      RecordPreservesValid(s.ledger, c);
    }
  }

  /**
   Reset forgets the clicks and only the clicks: the mode survives, the catalog is
   shown whole, no explanation and no badge remain, and a second reset changes nothing.
   */
  lemma ResetReturnsToColdStart(catalog: seq<Item>, s: Session)
    ensures Reset(s).inclusive == s.inclusive
    ensures ColdStart(Reset(s))
    ensures Visible(catalog, Reset(s)) == catalog
    ensures Explain(Reset(s)) == NoExplanation
    ensures forall item :: !BestMatch(Reset(s), item)
    ensures Reset(Reset(s)) == Reset(s)
  {
  }

  /**
   Flipping the switch changes only the mode: the counts and the dominant category
   stay, and while the page is in cold start nothing visible changes.
   */
  lemma SetModeKeepsClicks(catalog: seq<Item>, s: Session, checked: bool)
    ensures SetMode(s, checked).inclusive == checked
    ensures forall c :: Count(SetMode(s, checked).ledger, c) == Count(s.ledger, c)
    ensures Dominant(SetMode(s, checked).ledger) == Dominant(s.ledger)
    ensures ColdStart(SetMode(s, checked)) == ColdStart(s)
    ensures ColdStart(s) ==> Visible(catalog, SetMode(s, checked)) == Visible(catalog, s)
    ensures SetMode(SetMode(s, checked), s.inclusive) == s
    ensures SetMode(s, s.inclusive) == s
  {
  }

  /**
   A run of clicks adds up: after the clicks `cs`, every category's count has grown
   by the number of times it occurs in `cs`, and the mode is unchanged.
   */
  lemma {:induction false} CookAllCounts(s: Session, cs: seq<Category>, c: Category)
    ensures Count(CookAll(s, cs).ledger, c) == Count(s.ledger, c) + multiset(cs)[c]
    ensures CookAll(s, cs).inclusive == s.inclusive
    decreases |cs|
  {
    if |cs| > 0 {
      var next := Cook(s, cs[0]);
      CookAllCounts(next, cs[1..], c);
      assert cs == [cs[0]] + cs[1..];
      assert multiset(cs)[c] == multiset([cs[0]])[c] + multiset(cs[1..])[c];
      if cs[0] == c {
        assert Count(next.ledger, c) == Count(s.ledger, c) + 1;
      } else {
        assert Count(next.ledger, c) == Count(s.ledger, c);
      }
    }
  }

  /** After a reset, `n` clicks on `c` leave its count at exactly `n`. */
  lemma CountAfterResetIsClicks(s: Session, c: Category, n: nat)
    ensures Count(CookAll(Reset(s), seq(n, _ => c)).ledger, c) == n
  {
    var cs := seq(n, _ => c);
    CookAllCounts(Reset(s), cs, c);
    assert multiset(cs)[c] == n by {
      RepeatedCount(c, n);
    }
  }

  lemma {:induction false} RepeatedCount(c: Category, n: nat)
    ensures multiset(seq(n, _ => c))[c] == n
  {
    if n > 0 {
      var cs := seq(n, _ => c);
      assert cs == seq(n - 1, _ => c) + [c];
      RepeatedCount(c, n - 1);
    }
  }

  /**
   On a reachable session with no empty-string category, the page is in cold start
   exactly when no click has been recorded.
   */
  lemma ColdStartIffNoClicks(s: Session)
    requires Reachable(s)
    requires "" !in Keys(s.ledger)
    ensures ColdStart(s) <==> |s.ledger| == 0
  {
    DominantNoneIffEmpty(s.ledger);
    if Dominant(s.ledger).Some? {
      DominantIsMostCookedFirstEnumerated(s.ledger, Dominant(s.ledger).value);
    }
  }

  /**
   A click on a non-empty category always leaves cold start, on a reachable session
   where no empty-string category was clicked before.
   */
  lemma CookLeavesColdStart(s: Session, c: Category)
    requires Reachable(s)
    requires c != "" && "" !in Keys(s.ledger)
    ensures !ColdStart(Cook(s, c))
    ensures |Cook(s, c).ledger| > 0
  {
    var l := Record(s.ledger, c);
    RecordPreservesValid(s.ledger, c);
    RecordKeepsKeyOrder(s.ledger, c);
    assert c in Keys(l);
    ColdStartIffNoClicks(Cook(s, c));
  }

  /**
   A click on the empty-string category is recorded, but because `""` is falsy the
   page stays in cold start: the catalog is shown whole and no explanation appears.
   */
  lemma EmptyCategoryClickLooksCold(catalog: seq<Item>)
    ensures Cook(Start, "").ledger == [Entry("", 1)]
    ensures Dominant(Cook(Start, "").ledger) == Some("")
    ensures ColdStart(Cook(Start, ""))
    ensures Visible(catalog, Cook(Start, "")) == catalog
    ensures Explain(Cook(Start, "")) == NoExplanation
  {
  }

  /**
   The explanation follows the state: none in cold start, the "highlighting" text
   when the switch is on, the "hidden" text when it is off, each naming the dominant
   category.
   */
  lemma ExplanationSelection(s: Session)
    ensures Explain(s) == NoExplanation <==> ColdStart(s)
    ensures Explain(s).Highlighting? <==> !ColdStart(s) && s.inclusive
    ensures Explain(s).HidingOthers? <==> !ColdStart(s) && !s.inclusive
    ensures !ColdStart(s) ==> Dominant(s.ledger) == Some(Explain(s).category)
  {
  }

  /**
   The explanation tells the truth about the cards: with none, the catalog is shown
   as is; "hidden" means exactly the named category's cards are shown, in order;
   "highlighting" means every card is shown, the named category's cards first.
   */
  lemma ExplanationMatchesVisible(catalog: seq<Item>, s: Session)
    ensures Explain(s) == NoExplanation ==> Visible(catalog, s) == catalog
    ensures Explain(s).HidingOthers? ==>
      var d := Explain(s).category;
      && IsSubsequence(Visible(catalog, s), catalog)
      && (forall x :: x in Visible(catalog, s) ==> x.category == d)
      && (forall x :: x in catalog && x.category == d ==> x in Visible(catalog, s))
    ensures Explain(s).Highlighting? ==>
      var d := Explain(s).category;
      && multiset(Visible(catalog, s)) == multiset(catalog)
      && Partitioned(Visible(catalog, s), d)
  {
    match Explain(s)
    case NoExplanation =>
    case HidingOthers(d) =>
      ExclusiveIsOrderedFilter(catalog, d);
      forall x | x in catalog && x.category == d
        ensures x in Visible(catalog, s)
      {
        assert multiset(catalog)[x] > 0;
      }
    case Highlighting(d) =>
      InclusiveIsStablePartition(catalog, d);
  }

  /**
   The badge marks exactly the leading group of the inclusive list: the i-th visible
   card is a "Best Match" if and only if the switch is on, a category dominates, and
   the card lies within the dominant category's items.
   */
  lemma BestMatchMarksLeadingGroup(catalog: seq<Item>, s: Session)
    ensures
      var v := Visible(catalog, s);
      forall i :: 0 <= i < |v| ==>
        (BestMatch(s, v[i]) <==>
          s.inclusive && !ColdStart(s) && i < |Matching(catalog, Dominant(s.ledger).value)|)
  {
  }
}
