/**
  The post editor's tag manager: a tag is added from the trimmed input
  unless it is blank, already present or the list is full; removing a tag
  drops every copy of it.
 */
module TagManager {
  import opened Seqs
  import opened Text

  /** The default number of tags a post may carry. */
  const DefaultMaxTags: int := 10

  /** The tags of the post and the text in the tag input. */
  datatype TagState = TagState(tags: seq<string>, input: string)

  predicate NoDup(s: seq<string>)
  {
    forall i, j :: 0 <= i < j < |s| ==> s[i] != s[j]
  }

  /**
    `handleAddTag`: a blank input changes nothing; a tag already present
    only clears the input; a full list changes nothing; otherwise the
    trimmed input is appended and the input cleared.
   */
  function AddTag(state: TagState, maxTags: int): (r: TagState)
    ensures AllSpace(state.input) ==> r == state
    ensures !AllSpace(state.input) && Trim(state.input) in state.tags ==> r == TagState(state.tags, "")
    ensures !AllSpace(state.input) && Trim(state.input) !in state.tags && |state.tags| >= maxTags ==> r == state
    ensures r.tags != state.tags ==>
              r.tags == state.tags + [Trim(state.input)] && r.input == ""
              && |state.tags| < maxTags && Trim(state.input) != "" && Trim(state.input) !in state.tags
    ensures !AllSpace(state.input) && Trim(state.input) !in state.tags && |state.tags| < maxTags ==> r.tags != state.tags
  {
    var trimmed := Trim(state.input);
    if trimmed == "" then state
    else if trimmed in state.tags then TagState(state.tags, "")
    else if |state.tags| >= maxTags then state
    else
      assert (state.tags + [trimmed])[|state.tags|] == trimmed;
      TagState(state.tags + [trimmed], "")
  }

  /** Adding keeps the tags free of duplicates and within the maximum. */
  lemma AddKeepsInvariant(state: TagState, maxTags: int)
    requires NoDup(state.tags) && |state.tags| <= maxTags
    ensures NoDup(AddTag(state, maxTags).tags) && |AddTag(state, maxTags).tags| <= maxTags
  {
    var r := AddTag(state, maxTags);
    if r.tags != state.tags {
      var x := Trim(state.input);
      forall i, j | 0 <= i < j < |r.tags| ensures r.tags[i] != r.tags[j] {
        if j == |state.tags| {
          assert r.tags[i] == state.tags[i];
        }
      }
    }
  }

  /** Every tag added is a trimmed, non-empty text. */
  lemma AddedTagsAreTrimmed(state: TagState, maxTags: int)
    ensures forall t :: t in AddTag(state, maxTags).tags && t !in state.tags ==> t != "" && Trim(t) == t
  {
    var r := AddTag(state, maxTags);
    if r.tags != state.tags {
      var x := Trim(state.input);
      TrimNoop(x);
      forall t | t in r.tags && t !in state.tags ensures t == x {
        assert t in state.tags + [x];
      }
    }
  }

  /** Adding the same text again leaves the tags as they are. */
  lemma AddTwice(state: TagState, maxTags: int)
    ensures var once := AddTag(state, maxTags);
            AddTag(TagState(once.tags, state.input), maxTags).tags == once.tags
  {
    var once := AddTag(state, maxTags);
    if once.tags != state.tags {
      assert once.tags[|state.tags|] == Trim(state.input);
    }
  }

  /** `handleRemoveTag`: every copy of the tag dropped, the others kept in order. */
  function RemoveTag(tags: seq<string>, tag: string): (r: seq<string>)
    ensures forall t :: t in r <==> t in tags && t != tag
    ensures IsSubseq(r, tags)
  {
    Without(tags, tag)
  }

  /** Removing a tag from a duplicate-free list shortens it by one exactly when the tag was there. */
  lemma {:induction false} RemoveCount(tags: seq<string>, tag: string)
    requires NoDup(tags)
    ensures |RemoveTag(tags, tag)| == if tag in tags then |tags| - 1 else |tags|
    ensures NoDup(RemoveTag(tags, tag))
    decreases |tags|
  {
    if |tags| > 0 {
      var rest := tags[1..];
      assert NoDup(rest) by {
        forall i, j | 0 <= i < j < |rest| ensures rest[i] != rest[j] {
          assert rest[i] == tags[i + 1] && rest[j] == tags[j + 1];
        }
      }
      RemoveCount(rest, tag);
      assert tags == [tags[0]] + rest;
      FilterCons(tags[0], rest, y => y != tag);
      assert tags[0] !in rest by {
        forall k | 0 <= k < |rest| ensures rest[k] != tags[0] {
          assert rest[k] == tags[k + 1];
        }
      }
      var r := RemoveTag(tags, tag);
      if tags[0] == tag {
        assert r == RemoveTag(rest, tag);
      } else {
        assert r == [tags[0]] + RemoveTag(rest, tag);
        assert tag in tags <==> tag in rest;
        forall i, j | 0 <= i < j < |r| ensures r[i] != r[j] {
          if i == 0 {
            assert r[j] in RemoveTag(rest, tag);
          } else {
            assert r[i] == RemoveTag(rest, tag)[i - 1] && r[j] == RemoveTag(rest, tag)[j - 1];
          }
        }
      }
    }
  }

  /** Removing a tag that was just added gives back the tags from before. */
  lemma {:induction false} AddThenRemove(state: TagState, maxTags: int)
    requires AddTag(state, maxTags).tags != state.tags
    ensures RemoveTag(AddTag(state, maxTags).tags, Trim(state.input)) == state.tags
  {
    var x := Trim(state.input);
    WithoutAppended(state.tags, x);
  }
}
