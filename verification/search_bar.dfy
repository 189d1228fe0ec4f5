/**
  The search box's live filter: the items whose lower-cased text contains
  the lower-cased search term, shown only once a term has been typed.
 */
module SearchBar {
  import opened Seqs
  import opened Text

  /** The items the search box filters. */
  const SampleItems: seq<string> :=
    ["Apple", "Banana", "Orange", "Mango", "Strawberry", "Pineapple", "Watermelon", "Grape", "Kiwi", "Peach"]

  const NoResultsText: string := "No results found"

  predicate Matches(item: string, term: string)
  {
    Contains(Lower(item), Lower(term))
  }

  /** The items matching the term, case-insensitively, in their original order. */
  function FilterItems(items: seq<string>, term: string): (r: seq<string>)
    ensures forall x :: x in r <==> x in items && Matches(x, term)
    ensures IsSubseq(r, items)
    ensures term == "" ==> r == items
  {
    FilterSubseq(items, x => Matches(x, term));
    if term == "" then
      FilterAll(items, x => Matches(x, term));
      Filter(items, x => Matches(x, term))
    else
      Filter(items, x => Matches(x, term))
  }

  /** The list under the box: absent for an empty term, the matches, or the no-results line. */
  datatype SearchView = NoList | Results(items: seq<string>) | NoResults(text: string)

  function Search(items: seq<string>, term: string): (v: SearchView)
    ensures v.NoList? <==> term == ""
    ensures v.Results? ==> v.items != [] && v.items == FilterItems(items, term)
    ensures v.NoResults? <==> term != "" && forall x :: x in items ==> !Matches(x, term)
    ensures v.NoResults? ==> v.text == NoResultsText
  {
    if term == "" then NoList
    else
      var found := FilterItems(items, term);
      if found == [] then NoResults(NoResultsText)
      else
        assert found[0] in found;
        Results(found)
  }

  /** Letter case of the term never changes the matches. */
  lemma CaseInsensitive(items: seq<string>, term: string, other: string)
    requires Lower(term) == Lower(other)
    ensures FilterItems(items, term) == FilterItems(items, other)
  {
    assert forall x :: Matches(x, term) == Matches(x, other);
    FilterExt(items, x => Matches(x, term), x => Matches(x, other));
  }
}
