/** The flashcard record as the store returns it, and the list operations
    the review page applies to it. */
module Cards {
  import opened Sequences

  /** One stored flashcard. `id` is generated by the store and unique;
      `createdAt` is the creation time, kept opaque as a number. */
  datatype Flashcard = Flashcard(
    id: string,
    frontText: string,
    backText: string,
    category: string,
    createdAt: int)

  /** No two cards share an id, as the store guarantees for what it lists. */
  predicate UniqueIds(cards: seq<Flashcard>) {
    forall i, j | 0 <= i < j < |cards| :: cards[i].id != cards[j].id
  }

  /** The test `card.category === c`. */
  function HasCategory(c: string): Flashcard -> bool {
    (card: Flashcard) => card.category == c
  }

  /** The test `card.id !== id`. */
  function OtherThan(id: string): Flashcard -> bool {
    (card: Flashcard) => card.id != id
  }

  /** `cards.filter((card) => card.category === c)`. */
  function InCategory(cards: seq<Flashcard>, c: string): (r: seq<Flashcard>)
    ensures forall x :: x in r <==> x in cards && x.category == c
  {
    Keep(cards, HasCategory(c))
  }

  /** `cards.filter((card) => card.id !== id)`. */
  function WithoutId(cards: seq<Flashcard>, id: string): (r: seq<Flashcard>)
    ensures forall x :: x in r <==> x in cards && x.id != id
  {
    Keep(cards, OtherThan(id))
  }

  /** `cards.map((card) => card.category)`. */
  function CategoriesOf(cards: seq<Flashcard>): (r: seq<string>)
    ensures |r| == |cards|
    ensures forall i | 0 <= i < |cards| :: r[i] == cards[i].category
  {
    if cards == [] then [] else [cards[0].category] + CategoriesOf(cards[1..])
  }

  /** Filtering a list whose ids are unique leaves ids unique. */
  lemma {:induction false} KeepUniqueIds(cards: seq<Flashcard>, p: Flashcard -> bool)
    requires UniqueIds(cards)
    ensures UniqueIds(Keep(cards, p))
  {
    if cards != [] {
      var tail := cards[1..];
      assert UniqueIds(tail) by {
        forall i, j | 0 <= i < j < |tail| ensures tail[i].id != tail[j].id {
          assert tail[i] == cards[i + 1] && tail[j] == cards[j + 1];
        }
      }
      KeepUniqueIds(tail, p);
      if p(cards[0]) {
        var rest := Keep(tail, p);
        var r := [cards[0]] + rest;
        forall i, j | 0 <= i < j < |r| ensures r[i].id != r[j].id {
          if i == 0 {
            assert r[j] == rest[j - 1] && r[j] in tail;
            var k :| 0 <= k < |tail| && tail[k] == r[j];
            assert tail[k] == cards[k + 1];
          } else {
            assert r[i] == rest[i - 1] && r[j] == rest[j - 1];
          }
        }
      }
    }
  }

  /** Removing one id from a list whose ids are unique drops at most one card,
      and drops exactly one when some card has that id. */
  lemma {:induction false} WithoutIdLength(cards: seq<Flashcard>, id: string)
    requires UniqueIds(cards)
    ensures |WithoutId(cards, id)| == if exists k | 0 <= k < |cards| :: cards[k].id == id then |cards| - 1 else |cards|
  {
    if cards != [] {
      var tail := cards[1..];
      assert UniqueIds(tail) by {
        forall i, j | 0 <= i < j < |tail| ensures tail[i].id != tail[j].id {
          assert tail[i] == cards[i + 1] && tail[j] == cards[j + 1];
        }
      }
      WithoutIdLength(tail, id);
      if cards[0].id == id {
        assert !exists k | 0 <= k < |tail| :: tail[k].id == id by {
          forall k | 0 <= k < |tail| ensures tail[k].id != id {
            assert tail[k] == cards[k + 1];
          }
        }
      } else {
        assert (exists k | 0 <= k < |cards| :: cards[k].id == id) <==> (exists k | 0 <= k < |tail| :: tail[k].id == id) by {
          if k :| 0 <= k < |cards| && cards[k].id == id {
            assert k > 0 && tail[k - 1] == cards[k];
          }
          if k :| 0 <= k < |tail| && tail[k].id == id {
            assert cards[k + 1] == tail[k];
          }
        }
      }
    }
  }
}
