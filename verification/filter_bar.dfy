/**
  The course list's filter bar: its initial selections, the toggling of a
  multi-select value, and the payload handed to the apply callback.
 */
module FilterBar {
  import opened Wrappers
  import opened Seqs

  const CategoryOptions: seq<string> := ["all", "major", "car", "gur", "pg"]
  const SortOptions: seq<string> := ["rating", "reviews", "composite"]
  const DepartmentOptions: seq<string> := ["apss", "eee", "ise", "mm"]
  const DetailedCategoryOptions: seq<string> := ["projectHeavy", "examHeavy", "writingIntensive", "presentationHeavy"]
  const LevelOptions: seq<string> := ["0", "1", "2", "3", "4", "5", "6"]

  /** Everything the bar lets the user choose. */
  datatype FilterState = FilterState(
    category: string,
    sort: string,
    subjectCode: string,
    subjectTitle: string,
    departments: seq<string>,
    filterCategories: seq<string>,
    levels: seq<string>,
    teacherName: string)

  /** The bar's state before any choice: every category, sorted by rating, nothing else selected. */
  const Initial: FilterState := FilterState("all", "rating", "", "", [], [], [], "")

  /** The initial category and sort are options of their menus. */
  lemma InitialIsOffered()
    ensures Initial.category in CategoryOptions && Initial.category == CategoryOptions[0]
    ensures Initial.sort in SortOptions && Initial.sort == SortOptions[0]
  {
  }

  /**
    `toggleSelection`: a selected value is removed (every copy of it); any
    other value is appended.
   */
  function ToggleSelection(list: seq<string>, value: string): (r: seq<string>)
    ensures value in r <==> value !in list
    ensures forall x :: x != value ==> (x in r <==> x in list)
    ensures value in list ==> IsSubseq(r, list)
    ensures value !in list ==> r == list + [value]
  {
    if value in list then Without(list, value) else list + [value]
  }

  /** Toggling an unselected value twice restores the list. */
  lemma ToggleAbsentTwice(list: seq<string>, value: string)
    requires value !in list
    ensures ToggleSelection(ToggleSelection(list, value), value) == list
  {
    WithoutAppended(list, value);
  }

  /** Toggling a selected value twice moves it to the end, as one copy. */
  lemma TogglePresentTwice(list: seq<string>, value: string)
    requires value in list
    ensures ToggleSelection(ToggleSelection(list, value), value) == Without(list, value) + [value]
  {
  }

  /** Toggling offered values keeps the selection among the offered ones. */
  lemma ToggleWithinOptions(list: seq<string>, value: string, options: seq<string>)
    requires forall x :: x in list ==> x in options
    requires value in options
    ensures forall x :: x in ToggleSelection(list, value) ==> x in options
  {
  }

  /** The record handed to the apply callback; the detailed categories travel under `categories`. */
  datatype ApplyPayload = ApplyPayload(
    category: string,
    sort: string,
    subjectCode: string,
    subjectTitle: string,
    departments: seq<string>,
    categories: seq<string>,
    levels: seq<string>,
    teacherName: string)

  /** `handleApply`: nothing without a callback, else all eight fields of the current state. */
  function Apply(state: FilterState, hasCallback: bool): (r: Option<ApplyPayload>)
    ensures r.None? <==> !hasCallback
    ensures r.Some? ==> FromPayload(r.value) == state
  {
    if hasCallback then
      Some(ApplyPayload(state.category, state.sort, state.subjectCode, state.subjectTitle,
                        state.departments, state.filterCategories, state.levels, state.teacherName))
    else None
  }

  /** The state a payload was made from. */
  function FromPayload(p: ApplyPayload): FilterState
  {
    FilterState(p.category, p.sort, p.subjectCode, p.subjectTitle, p.departments, p.categories, p.levels, p.teacherName)
  }

  /** Two states give the same payload only when they are the same state. */
  lemma ApplyInjective(a: FilterState, b: FilterState)
    requires Apply(a, true) == Apply(b, true)
    ensures a == b
  {
    assert FromPayload(Apply(a, true).value) == FromPayload(Apply(b, true).value);
  }
}
