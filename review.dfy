/** The review page (app/review/page.tsx): a session over the fetched list of
    flashcards, filtered by a selected category and walked through with a
    circular index. React state updates and effects are modelled as explicit
    transitions applied one after the other. */
module Review {
  import opened Sequences
  import opened Cards

  /** The selector value that shows every card. */
  const AllCategories: string := "All"

  /** The list the page shows for a selection: every card under "All",
      otherwise the cards of the selected category. */
  function Filtered(cards: seq<Flashcard>, selected: string): (r: seq<Flashcard>)
    ensures selected == AllCategories ==> r == cards
    ensures selected != AllCategories ==> forall x :: x in r <==> x in cards && x.category == selected
    ensures |r| <= |cards|
  {
    if selected == AllCategories then cards else InCategory(cards, selected)
  }

  /** Filtering works piece by piece, so the filtered list keeps the cards in
      the order of the full list. */
  lemma FilteredAppend(a: seq<Flashcard>, b: seq<Flashcard>, selected: string)
    ensures Filtered(a + b, selected) == Filtered(a, selected) + Filtered(b, selected)
  {
    if selected != AllCategories {
      KeepAppend(a, b, HasCategory(selected));
    }
  }

  /** Removing a card and then filtering gives what filtering and then
      removing gives: the delete handler's two filters agree with the effect's. */
  lemma FilteredWithoutId(cards: seq<Flashcard>, selected: string, id: string)
    ensures Filtered(WithoutId(cards, id), selected) == WithoutId(Filtered(cards, selected), id)
  {
    if selected != AllCategories {
      KeepCommute(cards, OtherThan(id), HasCategory(selected));
    }
  }

  /** After a delete the filtered list loses the deleted card if it was in it,
      and nothing else. */
  lemma DeleteShrinksFiltered(cards: seq<Flashcard>, selected: string, id: string)
    requires UniqueIds(cards)
    ensures UniqueIds(WithoutId(cards, id))
    ensures var before, after := Filtered(cards, selected), Filtered(WithoutId(cards, id), selected);
      |after| == if exists k | 0 <= k < |before| :: before[k].id == id then |before| - 1 else |before|
  {
    KeepUniqueIds(cards, OtherThan(id));
    FilteredWithoutId(cards, selected, id);
    if selected != AllCategories {
      KeepUniqueIds(cards, HasCategory(selected));
    }
    WithoutIdLength(Filtered(cards, selected), id);
  }

  /** The category selector's options: "All", then each category present in
      the list once, in order of first occurrence (app/review/page.tsx:54-56). */
  function CategoryOptions(cards: seq<Flashcard>): (r: seq<string>)
    ensures |r| >= 1 && r[0] == AllCategories
    ensures NoDups(r[1..])
    ensures forall c :: c in r[1..] <==> exists card :: card in cards && card.category == c
  {
    var names := CategoriesOf(cards);
    assert forall c :: c in names <==> exists card :: card in cards && card.category == c by {
      forall c | c in names ensures exists card :: card in cards && card.category == c {
        var k :| 0 <= k < |names| && names[k] == c;
        assert cards[k] in cards;
      }
      forall card | card in cards ensures card.category in names {
        var k :| 0 <= k < |cards| && cards[k] == card;
        assert names[k] == card.category;
      }
    }
    assert ([AllCategories] + Distinct(names))[1..] == Distinct(names);
    [AllCategories] + Distinct(names)
  }

  /** The options after "All" follow the order in which their categories first
      occur among the cards. */
  lemma CategoryOptionsOrder(cards: seq<Flashcard>, i: nat, j: nat)
    requires 1 <= i < j < |CategoryOptions(cards)|
    ensures CategoryOptions(cards)[i] in CategoriesOf(cards)
    ensures CategoryOptions(cards)[j] in CategoriesOf(cards)
    ensures FirstIndex(CategoriesOf(cards), CategoryOptions(cards)[i])
          < FirstIndex(CategoriesOf(cards), CategoryOptions(cards)[j])
  {
    var names, r := CategoriesOf(cards), CategoryOptions(cards);
    var d := Distinct(names);
    assert r[i] == d[i - 1] && r[j] == d[j - 1] by {
      assert r == [AllCategories] + d;
    }
    assert FirstIndex(names, d[i - 1]) < FirstIndex(names, d[j - 1]) by {
      DistinctFirstOccurrenceOrder(names, i - 1, j - 1);
    }
  }

  /** The index is usable for a list of length `n`: inside it, or 0 when the
      list is empty. */
  predicate IndexOk(i: int, n: int) {
    0 <= i && (i < n || i == 0)
  }

  /** handleNext's update (app/review/page.tsx:86): the successor modulo `n`. */
  function NextIndex(i: int, n: int): (r: int)
    requires 0 <= i < n
    ensures 0 <= r < n
    ensures r == (i + 1) % n
  {
    if i < n - 1 then i + 1 else 0
  }

  /** handlePrevious's update (app/review/page.tsx:82): the predecessor modulo `n`. */
  function PreviousIndex(i: int, n: int): (r: int)
    requires 0 <= i < n
    ensures 0 <= r < n
    ensures r == (i - 1) % n
  {
    if i > 0 then i - 1 else n - 1
  }

  /** Previous undoes Next. */
  lemma PreviousAfterNext(i: int, n: int)
    requires 0 <= i < n
    ensures PreviousIndex(NextIndex(i, n), n) == i
  {
  }

  /** Next undoes Previous. */
  lemma NextAfterPrevious(i: int, n: int)
    requires 0 <= i < n
    ensures NextIndex(PreviousIndex(i, n), n) == i
  {
  }

  /** The index after pressing Next `k` times. */
  function Advance(i: int, n: int, k: nat): (r: int)
    requires 0 <= i < n
    ensures 0 <= r < n
  {
    if k == 0 then i else NextIndex(Advance(i, n, k - 1), n)
  }

  /** Before the wrap, Next just counts up. */
  lemma {:induction false} AdvanceCountsUp(i: int, n: int, k: nat)
    requires 0 <= i && i + k < n
    ensures Advance(i, n, k) == i + k
  {
    if k > 0 {
      AdvanceCountsUp(i, n, k - 1);
    }
  }

  /** Pressing Next `a` times and then `b` times is pressing it `a + b` times. */
  lemma {:induction false} AdvanceCompose(i: int, n: int, a: nat, b: nat)
    requires 0 <= i < n
    ensures Advance(Advance(i, n, a), n, b) == Advance(i, n, a + b)
  {
    if b > 0 {
      AdvanceCompose(i, n, a, b - 1);
    }
  }

  /** Pressing Next as many times as there are cards comes back to the same card. */
  lemma AdvanceFullCycle(i: int, n: int)
    requires 0 <= i < n
    ensures Advance(i, n, n) == i
  {
    var k := n - 1 - i;
    AdvanceCountsUp(i, n, k);
    assert Advance(i, n, k + 1) == 0;
    AdvanceCountsUp(0, n, i);
    AdvanceCompose(i, n, k + 1, i);
  }

  /** The delete handler's index adjustment (app/review/page.tsx:37-38), which
      compares against the length of the filtered list from before the delete. */
  function DeleteClamp(i: int, oldLen: int): (r: int)
    ensures i < oldLen - 1 ==> r == i
    ensures i >= oldLen - 1 ==> r == if oldLen >= 2 then oldLen - 2 else 0
  {
    if i >= oldLen - 1 then (if 0 > oldLen - 2 then 0 else oldLen - 2) else i
  }

  /** The adjusted index is usable for the list after a delete that removed
      at most one card from it. */
  lemma DeleteClampKeepsIndexOk(i: int, oldLen: int, newLen: int)
    requires IndexOk(i, oldLen)
    requires oldLen - 1 <= newLen <= oldLen
    ensures IndexOk(DeleteClamp(i, oldLen), newLen)
  {
  }

  /** Client-held state of the review page. */
  class ReviewSession {
    var flashcards: seq<Flashcard>
    var filteredFlashcards: seq<Flashcard>
    var currentIndex: int
    var isLoading: bool
    var selectedCategory: string
    var categories: seq<string>

    /** Between transitions the filtered list matches the selection, the index
        is usable, and nothing is selected or held while the first fetch runs. */
    ghost predicate Valid()
      reads this
    {
      && UniqueIds(flashcards)
      && filteredFlashcards == Filtered(flashcards, selectedCategory)
      && IndexOk(currentIndex, |filteredFlashcards|)
      && (isLoading ==> flashcards == [] && selectedCategory == AllCategories)
    }

    /** The initial state (app/review/page.tsx:15-20). */
    constructor ()
      ensures Valid()
      ensures flashcards == [] && filteredFlashcards == [] && currentIndex == 0
      ensures isLoading && selectedCategory == AllCategories && categories == []
    {
      flashcards := [];
      filteredFlashcards := [];
      currentIndex := 0;
      isLoading := true;
      selectedCategory := AllCategories;
      categories := [];
    }

    /** The first fetch succeeded with `data` (app/review/page.tsx:50-57, 65). */
    method Load(data: seq<Flashcard>)
      requires Valid() && isLoading
      requires UniqueIds(data)
      modifies this
      ensures Valid()
      ensures flashcards == data && filteredFlashcards == data
      ensures categories == CategoryOptions(data)
      ensures !isLoading && selectedCategory == AllCategories && currentIndex == 0
    {
      flashcards := data;
      categories := CategoryOptions(data);
      filteredFlashcards := data;
      isLoading := false;
    }

    /** The first fetch failed (app/review/page.tsx:58-66): the session stays
        empty and stops loading. */
    method LoadFailed()
      requires Valid() && isLoading
      modifies this`isLoading
      ensures Valid()
      ensures !isLoading && flashcards == [] && filteredFlashcards == []
    {
      isLoading := false;
    }

    /** The effect on [selectedCategory, flashcards] (app/review/page.tsx:72-79):
        re-filter and go back to the first card. It re-establishes Valid from
        any state with unique ids. */
    method SyncFilter()
      requires UniqueIds(flashcards)
      requires isLoading ==> flashcards == [] && selectedCategory == AllCategories
      modifies this`filteredFlashcards, this`currentIndex
      ensures Valid()
      ensures filteredFlashcards == Filtered(flashcards, selectedCategory)
      ensures currentIndex == 0
    {
      if selectedCategory == AllCategories {
        filteredFlashcards := flashcards;
      } else {
        filteredFlashcards := InCategory(flashcards, selectedCategory);
      }
      currentIndex := 0;
    }

    /** The selector's setSelectedCategory (app/review/page.tsx:119) and the
        effect it triggers. Setting the value it already has triggers nothing. */
    method SelectCategory(c: string)
      requires Valid() && !isLoading
      modifies this`selectedCategory, this`filteredFlashcards, this`currentIndex
      ensures Valid()
      ensures selectedCategory == c
      ensures c == old(selectedCategory) ==> unchanged(this)
      ensures c != old(selectedCategory) ==> filteredFlashcards == Filtered(flashcards, c) && currentIndex == 0
    {
      if c != selectedCategory {
        selectedCategory := c;
        SyncFilter();
      }
    }

    /** The Next button (app/review/page.tsx:85-87), shown only with a
        non-empty list. */
    method HandleNext()
      requires Valid() && !isLoading && |filteredFlashcards| > 0
      modifies this`currentIndex
      ensures Valid()
      ensures currentIndex == NextIndex(old(currentIndex), |filteredFlashcards|)
    {
      currentIndex := if currentIndex < |filteredFlashcards| - 1 then currentIndex + 1 else 0;
    }

    /** The Previous button (app/review/page.tsx:81-83), shown only with a
        non-empty list. */
    method HandlePrevious()
      requires Valid() && !isLoading && |filteredFlashcards| > 0
      modifies this`currentIndex
      ensures Valid()
      ensures currentIndex == PreviousIndex(old(currentIndex), |filteredFlashcards|)
    {
      currentIndex := if currentIndex > 0 then currentIndex - 1 else |filteredFlashcards| - 1;
    }

    /** The delete handler alone (app/review/page.tsx:24-40), before React runs
        the effect its setFlashcards triggers. The index clamp reads the
        filtered list's length from before the delete; the index stays usable
        whatever card is removed. */
    method HandleDelete(id: string)
      requires Valid()
      modifies this`flashcards, this`filteredFlashcards, this`currentIndex
      ensures Valid()
      ensures flashcards == WithoutId(old(flashcards), id)
      ensures filteredFlashcards == Filtered(flashcards, selectedCategory)
      ensures currentIndex == DeleteClamp(old(currentIndex), |old(filteredFlashcards)|)
      ensures (exists k | 0 <= k < |old(filteredFlashcards)| :: old(filteredFlashcards)[k].id == id)
                ==> |filteredFlashcards| == |old(filteredFlashcards)| - 1
    {
      var oldLen := |filteredFlashcards|;
      DeleteShrinksFiltered(flashcards, selectedCategory, id);
      var updated := WithoutId(flashcards, id);
      flashcards := updated;
      if selectedCategory == AllCategories {
        filteredFlashcards := updated;
      } else {
        filteredFlashcards := InCategory(updated, selectedCategory);
      }
      DeleteClampKeepsIndexOk(currentIndex, oldLen, |filteredFlashcards|);
      if currentIndex >= oldLen - 1 {
        currentIndex := if 0 > oldLen - 2 then 0 else oldLen - 2;
      }
    }

    /** Deleting the card on screen: the card component calls the handler only
        after the server confirmed the delete (components/flashcard.tsx:42-58),
        and the new list then triggers the effect, which resets the index. */
    method DeleteShownCard(serverOk: bool)
      requires Valid() && !isLoading && |filteredFlashcards| > 0
      modifies this`flashcards, this`filteredFlashcards, this`currentIndex
      ensures Valid()
      ensures !serverOk ==> unchanged(this)
      ensures serverOk ==>
        && flashcards == WithoutId(old(flashcards), old(filteredFlashcards)[old(currentIndex)].id)
        && filteredFlashcards == Filtered(flashcards, selectedCategory)
        && |filteredFlashcards| == |old(filteredFlashcards)| - 1
        && currentIndex == 0
    {
      if serverOk {
        HandleDelete(filteredFlashcards[currentIndex].id);
        SyncFilter();
      }
    }
  }
}
