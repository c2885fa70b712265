# Flashcards: client state and create validation, in Dafny

This project models the decision logic of a small flashcard study
application (a Next.js front end over a Prisma store):

- the **review session** of the review page: the fetched card list, the
  category selector with its options, the filtered list, the circular
  index moved by Next and Previous, and deletion of the card on screen;
- the **create form**: the guard on empty texts, the choice of the final
  category, the category list kept free of duplicates, and the reset of the
  fields after a successful submit;
- the **POST handler** for flashcards: rejecting a body without front or back
  text with 400, defaulting the category to "General", and answering 201 or
  500 depending on the store.

React state and effects become a class per page whose methods are the
transitions, applied one after the other. An effect is its own method
(`SyncFilter`), and the composite transitions name the order in which React
applies the updates. The network and the store are parameters: the answer of
a request is a `bool`, the store's create call a function that returns the
stored record or `None` when it throws.

Files: `wrappers.dfy` (Option), `sequences.dfy` (filter and the de-duplication
a JavaScript `Set` performs), `cards.dfy` (the flashcard record),
`review.dfy`, `create.dfy`, `api.dfy`.

Four behaviours of the code are kept as written:

- The delete handler clamps the index against the filtered list's length
  from *before* the delete (`max(0, oldLen - 2)` when the index was at or past
  `oldLen - 1`). `HandleDelete` states this and proves the index stays usable
  for the new list whatever card is removed, given unique ids. But the handler
  also gives `flashcards` a new array, so the effect on
  `[selectedCategory, flashcards]` runs next and resets the index to 0;
  `DeleteShownCard` states that final index. Deleting the last of N > 1
  cards therefore ends on the first card, not on card N-2.
- The create page's category fetch runs once, on mount, and its closure holds
  the list of the first render. The merge therefore starts from the default
  list, not from the current one (`CategoriesFetched`). A custom category
  added by a submit that completes before the fetch answers is dropped by the
  merge, unless the fetched names already contain it.
- The review page's category options are computed at load only. After a
  delete, a category that has no cards left stays in the selector.
- The selector is rendered only while the filtered list is non-empty. Once
  the last card of the selected category is deleted, the page shows its empty
  state and offers no way back to "All" short of a reload. `SelectCategory`
  does not require a non-empty list, so the model can still take that step.

## Model

| member | source | states |
|---|---|---|
| `Sequences.Keep` | app/review/page.tsx:76 | the filter keeps exactly the elements that pass the test, never more than it was given |
| `Sequences.KeepAppend` | app/review/page.tsx:76 | filtering distributes over concatenation, so the original order is kept |
| `Sequences.Distinct` | app/review/page.tsx:54 | the `Set` de-duplication: no duplicates, and exactly the values of the input |
| `Sequences.DistinctFirstOccurrenceOrder` | app/review/page.tsx:54 | the de-duplicated values come in the order of their first occurrence |
| `Sequences.DistinctAppendPrefix` | app/create/page.tsx:34 | adding values to a `Set` never reorders the values already in it |
| `Cards.InCategory` | app/review/page.tsx:76 | the cards kept are exactly those whose category equals the selection |
| `Cards.WithoutId` | app/review/page.tsx:26 | the cards kept are exactly those whose id differs from the deleted id |
| `Cards.CategoriesOf` | app/review/page.tsx:54 | the category of each card, position by position |
| `Cards.WithoutIdLength` | app/review/page.tsx:26 | with unique ids, a delete removes one card when the id is present and none otherwise |
| `Review.Filtered` | app/review/page.tsx:73-77 | under "All" the filtered list is the full list; otherwise exactly the cards of the selected category |
| `Review.FilteredAppend` | app/review/page.tsx:73-77 | the filtered list keeps the cards in the order of the full list |
| `Review.FilteredWithoutId` | app/review/page.tsx:26-34 | filtering after removing a card equals removing it from the filtered list |
| `Review.DeleteShrinksFiltered` | app/review/page.tsx:26-34 | a delete keeps ids unique and shortens the filtered list by one exactly when the card was in it |
| `Review.CategoryOptions` | app/review/page.tsx:54-56 | the options are "All" followed by each category present among the cards, once |
| `Review.CategoryOptionsOrder` | app/review/page.tsx:54-56 | the options after "All" follow the order of first occurrence among the cards |
| `Review.NextIndex` | app/review/page.tsx:86 | Next stays inside the list and is the successor modulo its length (n-1 wraps to 0) |
| `Review.PreviousIndex` | app/review/page.tsx:82 | Previous stays inside the list and is the predecessor modulo its length (0 wraps to n-1) |
| `Review.PreviousAfterNext` | app/review/page.tsx:82-86 | Previous undoes Next for every valid index |
| `Review.NextAfterPrevious` | app/review/page.tsx:82-86 | Next undoes Previous for every valid index |
| `Review.Advance` | app/review/page.tsx:86 | any number of Next presses keeps the index inside the list |
| `Review.AdvanceCountsUp` | app/review/page.tsx:86 | before the wrap, k presses of Next add k to the index |
| `Review.AdvanceCompose` | app/review/page.tsx:86 | a presses then b presses of Next are a + b presses |
| `Review.AdvanceFullCycle` | app/review/page.tsx:86 | pressing Next as many times as there are cards returns to the same index |
| `Review.DeleteClamp` | app/review/page.tsx:37-38 | at or past oldLen-1 the index becomes max(0, oldLen-2); below it the index is unchanged |
| `Review.DeleteClampKeepsIndexOk` | app/review/page.tsx:37-38 | when the delete removed at most one card, the clamped index is usable for the new list |
| `Review.ReviewSession.constructor` | app/review/page.tsx:15-20 | the session starts loading, empty, at index 0, with "All" selected |
| `Review.ReviewSession.Load` | app/review/page.tsx:50-57 | after load the list and the filtered list are the fetched list, the options are "All" and the distinct categories, the index is 0 |
| `Review.ReviewSession.LoadFailed` | app/review/page.tsx:58-66 | a failed fetch leaves the session empty and stops loading |
| `Review.ReviewSession.SyncFilter` | app/review/page.tsx:72-79 | the effect recomputes the filtered list from the list and the selection and resets the index to 0 |
| `Review.ReviewSession.SelectCategory` | app/review/page.tsx:119 | a new selection re-filters and resets the index to 0; reselecting the current value changes nothing |
| `Review.ReviewSession.HandleNext` | app/review/page.tsx:85-87 | the index moves to NextIndex of itself and the session stays valid |
| `Review.ReviewSession.HandlePrevious` | app/review/page.tsx:81-83 | the index moves to PreviousIndex of itself and the session stays valid |
| `Review.ReviewSession.HandleDelete` | app/review/page.tsx:24-40 | exactly the cards with the id are removed in order, the filtered list is recomputed, the index is clamped against the old length and stays usable |
| `Review.ReviewSession.DeleteShownCard` | components/flashcard.tsx:36-60 | a failed delete request changes nothing; a confirmed one removes the card on screen and, through the effect, resets the index to 0 |
| `FlashcardsApi.CategoryOrDefault` | app/api/flashcards/route.ts:32 | the stored category is the given one when non-empty, "General" otherwise, never empty |
| `FlashcardsApi.Validate` | app/api/flashcards/route.ts:24-33 | the data exists exactly when both texts are non-empty, and carries both texts unchanged |
| `FlashcardsApi.Post` | app/api/flashcards/route.ts:19-41 | 400 exactly for a body failing validation, with no create call; 201 with the stored record exactly when the store succeeds; 500 otherwise |
| `FlashcardsApi.MissingFrontRejected` | app/api/flashcards/route.ts:24-25 | a missing or empty frontText gives 400 and no create call |
| `FlashcardsApi.MissingBackRejected` | app/api/flashcards/route.ts:24-25 | a missing or empty backText gives 400 and no create call |
| `FlashcardsApi.ValidRequestStored` | app/api/flashcards/route.ts:28-39 | a valid body reaches the store with the texts unchanged and the defaulted category; 201 with the record on success, 500 on failure |
| `CreatePage.FinalCategory` | app/create/page.tsx:56 | custom text in custom mode when non-empty, else the selected category when non-empty, else "General"; never empty |
| `CreatePage.Merge` | app/create/page.tsx:34 | the merged list has no duplicates and holds exactly the current and the fetched names |
| `CreatePage.MergeKeepsCurrent` | app/create/page.tsx:34 | a duplicate-free current list stays at the front of the merge, in its order |
| `CreatePage.AddCategory` | app/create/page.tsx:84-86 | a custom category is appended only when non-empty and not listed; the list stays duplicate-free |
| `CreatePage.SubmittedBodyAccepted` | app/create/page.tsx:61-71 | a body the form sends passes the server's validation and is stored with the form's final category |
| `CreatePage.CreateForm.constructor` | app/create/page.tsx:16-22 | the form starts empty, not in custom mode, with the six default categories |
| `CreatePage.CreateForm.CategoriesFetched` | app/create/page.tsx:26-42 | the list becomes the merge of the default list and the fetched names: defaults first, every name present, no duplicates |
| `CreatePage.CreateForm.HandleSubmit` | app/create/page.tsx:44-103 | empty texts stop before any request with nothing changed; otherwise the body sent carries the final category; success clears the fields, leaves custom mode and appends a new custom category; failure keeps the fields; never left submitting |

## Left out

- The list GET handler and the category counts endpoint: each is a direct store call, and the newest-first ordering and the grouping are done by the store.
- The handlers of a single card (app/api/flashcards/[id]/route.ts) are outside the modelled core. Not modelled: GET's 404 when the store finds no card; PUT's 400 when `frontText`, `backText` and `category` are all falsy; PUT's update built from only the truthy fields; DELETE, which answers 500 for any failure, including an unknown id.
- The home page, the layout, the category grid and the card flip animation and confirmation dialog: rendering only. Of the card component, only the gating of the delete on the server's answer is modelled, in `DeleteShownCard`.
- The network, toasts, `router.refresh()` and React's scheduling: requests are replaced by their outcome (a `bool`, or the store as a function), and effects run as explicit transitions right after the update that triggers them.
- The loading spinner and the progress bar width (a floating-point percentage for display).
- The create page's input handlers and mode toggle: each assigns one field, which the model's callers do directly.
- A failed category fetch on the create page: a non-ok answer is ignored and a thrown fetch is only logged. The state does not change in either case, so no method is needed.
- JSON values in the POST body that are neither strings nor absent (numbers, objects): fields are modelled as an optional string, and only "missing or empty" is falsy.
- The `createdAt` timestamp is carried as an opaque number; nothing in the modelled code reads it.
