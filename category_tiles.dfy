/**
 * The category tiles: a click selects a category, and a click on the
 * selected one clears the selection.
 */
module CategoryTiles {
  import opened Optional
  import Listing

  const ShowAllSentinel := "Все категории"
  const NoneSentinel := "all"

  /** The value that clears the selection. */
  function DeselectValue(showAll: bool): string
  {
    if showAll then ShowAllSentinel else NoneSentinel
  }

  /**
   * `handleClick(category)`: the value passed to `onCategorySelect`, or None
   * when nothing is called.
   */
  function HandleClick(selected: Option<string>, hasOnCategorySelect: bool, showAll: bool, category: string)
    : (emitted: Option<string>)
    ensures !hasOnCategorySelect ==> emitted.None?
    ensures hasOnCategorySelect ==> emitted.Some?
    ensures hasOnCategorySelect && selected == Some(category) ==> emitted == Some(DeselectValue(showAll))
    ensures hasOnCategorySelect && selected != Some(category) ==> emitted == Some(category)
  {
    if !hasOnCategorySelect then None
    else if selected == Some(category) then Some(DeselectValue(showAll))
    else Some(category)
  }

  /** Whatever is emitted is the clicked category or one of the two sentinels. */
  lemma EmitsCategoryOrSentinel(selected: Option<string>, hasOnCategorySelect: bool, showAll: bool, category: string)
    ensures var e := HandleClick(selected, hasOnCategorySelect, showAll, category);
      e.Some? ==> e.value == category || e.value == ShowAllSentinel || e.value == NoneSentinel
  {
  }

  /**
   * When the parent stores what is emitted, clicking a category that is not
   * selected and then clicking it again selects it and then clears the
   * selection.
   */
  lemma ClickTwiceClears(selected: Option<string>, showAll: bool, category: string)
    requires selected != Some(category)
    ensures HandleClick(selected, true, showAll, category) == Some(category)
    ensures HandleClick(HandleClick(selected, true, showAll, category), true, showAll, category)
         == Some(DeselectValue(showAll))
  {
  }

  /** With `showAll`, the cleared selection switches the listing's category filter off. */
  lemma ShowAllClearsListingFilter(category: string)
    ensures Listing.EqFilter(HandleClick(Some(category), true, true, category), Listing.AllCategories).None?
  {
  }
}
