/** The create page (app/create/page.tsx): a form with front text, back text
    and a category chosen from a list or typed in, submitted to the POST
    handler. The request, its answer and the category fetch are inputs to the
    transitions. */
module CreatePage {
  import opened Wrappers
  import opened Sequences
  import opened FlashcardsApi

  /** The category list the form starts with (app/create/page.tsx:21). */
  const DefaultCategories: seq<string> := ["General", "Science", "Math", "History", "Language", "Programming"]

  /** The guard of handleSubmit (app/create/page.tsx:47): both texts filled in. */
  predicate CanSubmit(frontText: string, backText: string) {
    frontText != "" && backText != ""
  }

  /** The category the form submits (app/create/page.tsx:56): the typed-in one
      in custom mode when it is filled in, else the selected one when there is
      one, else "General". Never empty. */
  function FinalCategory(isCustom: bool, custom: string, selected: string): (r: string)
    ensures r != ""
    ensures isCustom && custom != "" ==> r == custom
    ensures !(isCustom && custom != "") && selected != "" ==> r == selected
    ensures !(isCustom && custom != "") && selected == "" ==> r == DefaultCategory
  {
    if isCustom && custom != "" then custom
    else if selected != "" then selected
    else DefaultCategory
  }

  /** `[...new Set([...current, ...fetched])]` (app/create/page.tsx:34). */
  function Merge(current: seq<string>, fetched: seq<string>): (r: seq<string>)
    ensures NoDups(r)
    ensures forall x :: x in r <==> x in current || x in fetched
  {
    Distinct(current + fetched)
  }

  /** Merging keeps a duplicate-free current list in front, in its order. */
  lemma MergeKeepsCurrent(current: seq<string>, fetched: seq<string>)
    requires NoDups(current)
    ensures |current| <= |Merge(current, fetched)|
    ensures Merge(current, fetched)[..|current|] == current
  {
    DistinctAppendPrefix(current, fetched);
    DistinctOfNoDups(current);
  }

  /** The append after a successful submit (app/create/page.tsx:84-86): a
      typed-in category joins the list at the end when it is filled in and
      not listed yet. */
  function AddCategory(categories: seq<string>, isCustom: bool, custom: string): (r: seq<string>)
    ensures NoDups(categories) ==> NoDups(r)
    ensures |categories| <= |r| && r[..|categories|] == categories
    ensures forall x :: x in r <==> x in categories || (isCustom && custom != "" && x == custom)
  {
    if isCustom && custom != "" && custom !in categories then categories + [custom] else categories
  }

  /** What the form sends for given field values: the texts as typed and the
      final category; the server accepts it and stores exactly that. */
  lemma SubmittedBodyAccepted(frontText: string, backText: string, isCustom: bool, custom: string, selected: string)
    requires CanSubmit(frontText, backText)
    ensures var cat := FinalCategory(isCustom, custom, selected);
      Validate(CreateBody(Some(frontText), Some(backText), Some(cat))) == Some(NewCard(frontText, backText, cat))
  {
  }

  /** State of the create form. */
  class CreateForm {
    var frontText: string
    var backText: string
    var category: string
    var customCategory: string
    var isCustomCategory: bool
    var categories: seq<string>
    var isSubmitting: bool

    /** Between transitions the category list has no duplicates and no
        submission is in flight. */
    ghost predicate Valid()
      reads this
    {
      NoDups(categories) && !isSubmitting
    }

    /** The initial state (app/create/page.tsx:16-22). */
    constructor ()
      ensures Valid()
      ensures frontText == "" && backText == "" && category == "" && customCategory == ""
      ensures !isCustomCategory && categories == DefaultCategories
    {
      frontText, backText, category, customCategory := "", "", "", "";
      isCustomCategory := false;
      categories := DefaultCategories;
      isSubmitting := false;
    }

    /** The category fetch succeeded with `names` (app/create/page.tsx:30-35).
        The effect runs once, on mount, so its closure holds the list of the
        first render: the merge starts from DefaultCategories, not from the
        current list. */
    method CategoriesFetched(names: seq<string>)
      requires Valid()
      modifies this`categories
      ensures Valid()
      ensures categories == Merge(DefaultCategories, names)
      ensures |DefaultCategories| <= |categories| && categories[..|DefaultCategories|] == DefaultCategories
      ensures forall n :: n in names ==> n in categories
    {
      MergeKeepsCurrent(DefaultCategories, names);
      categories := Merge(DefaultCategories, names);
    }

    /** handleSubmit (app/create/page.tsx:44-103). `serverOk` is whether the
        POST answered with an ok status; `sent` is the body posted, or None
        when the guard stopped the submission before any request. */
    method HandleSubmit(serverOk: bool) returns (sent: Option<CreateBody>)
      requires Valid()
      modifies this
      ensures Valid()
      ensures !CanSubmit(old(frontText), old(backText)) ==> sent.None? && unchanged(this)
      ensures CanSubmit(old(frontText), old(backText)) ==>
        sent == Some(CreateBody(Some(old(frontText)), Some(old(backText)),
                                Some(FinalCategory(old(isCustomCategory), old(customCategory), old(category)))))
      ensures CanSubmit(old(frontText), old(backText)) && serverOk ==>
        && frontText == "" && backText == "" && category == "" && customCategory == ""
        && !isCustomCategory
        && categories == AddCategory(old(categories), old(isCustomCategory), old(customCategory))
      ensures !serverOk ==>
        && frontText == old(frontText) && backText == old(backText)
        && category == old(category) && customCategory == old(customCategory)
        && isCustomCategory == old(isCustomCategory) && categories == old(categories)
    {
      if !CanSubmit(frontText, backText) {
        return None;
      }
      var finalCategory := FinalCategory(isCustomCategory, customCategory, category);
      isSubmitting := true;
      sent := Some(CreateBody(Some(frontText), Some(backText), Some(finalCategory)));
      if serverOk {
        var custom, wasCustom := customCategory, isCustomCategory;
        frontText := "";
        backText := "";
        category := "";
        customCategory := "";
        categories := AddCategory(categories, wasCustom, custom);
        isCustomCategory := false;
      }
      isSubmitting := false;
    }
  }
}
