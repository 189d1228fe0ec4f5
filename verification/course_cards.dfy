/**
  Behaviour of the course cards: the detailed card's recommend/not-recommend
  voting reducer, and what the review card and the review-reply card show.
 */
module CourseCards {
  import opened Wrappers
  import opened Text
  import opened ReviewStore
  import opened CardRules

  // ---------------------------------------------------------------------
  // Voting
  // ---------------------------------------------------------------------

  datatype Vote = Recommend | NotRecommend

  /** The user's current vote and the two public counts. */
  datatype VotingState = VotingState(userVote: Option<Vote>, recommendCount: int, notRecommendCount: int)

  /** The reducer's actions; `OtherAction` stands for any unrecognised action type. */
  datatype VotingAction =
    | ToggleVote(voteType: Vote)
    | ResetVotes(recommend: int, notRecommend: int)
    | OtherAction

  function Other(v: Vote): Vote
  {
    match v
    case Recommend => NotRecommend
    case NotRecommend => Recommend
  }

  /** The count of one kind of vote. */
  function Count(s: VotingState, v: Vote): int
  {
    match v
    case Recommend => s.recommendCount
    case NotRecommend => s.notRecommendCount
  }

  /** `Math.max(0, n - 1)`: one vote withdrawn, never below zero. */
  function Withdraw(n: int): int
  {
    if n - 1 < 0 then 0 else n - 1
  }

  /**
    `votingReducer`: toggling the vote the user already cast withdraws it;
    toggling another vote withdraws the previous one (if any) and adds the
    new one; a reset installs the given counts and clears the user's vote;
    any other action leaves the state alone.
   */
  function VotingReducer(state: VotingState, action: VotingAction): (r: VotingState)
    ensures action.OtherAction? ==> r == state
    ensures action.ResetVotes? ==>
              r == VotingState(None, action.recommend, action.notRecommend)
    ensures action.ToggleVote? && state.userVote == Some(action.voteType) ==>
              r.userVote.None?
              && Count(r, action.voteType) == Withdraw(Count(state, action.voteType))
              && Count(r, Other(action.voteType)) == Count(state, Other(action.voteType))
    ensures action.ToggleVote? && state.userVote != Some(action.voteType) ==>
              r.userVote == Some(action.voteType)
              && Count(r, action.voteType) == Count(state, action.voteType) + 1
              && Count(r, Other(action.voteType)) ==
                   (if state.userVote.Some? then Withdraw(Count(state, Other(action.voteType)))
                    else Count(state, Other(action.voteType)))
    ensures state.recommendCount >= 0 && state.notRecommendCount >= 0
            && (action.ResetVotes? ==> action.recommend >= 0 && action.notRecommend >= 0) ==>
              r.recommendCount >= 0 && r.notRecommendCount >= 0
  {
    match action
    case ToggleVote(voteType) =>
      if state.userVote == Some(voteType) then
        VotingState(
          None,
          if voteType == Recommend then Withdraw(state.recommendCount) else state.recommendCount,
          if voteType == NotRecommend then Withdraw(state.notRecommendCount) else state.notRecommendCount)
      else
        assert state.userVote.Some? ==> state.userVote.value == Other(voteType);
        var recommend :=
          if state.userVote == Some(Recommend) then Withdraw(state.recommendCount) else state.recommendCount;
        var notRecommend :=
          if state.userVote == Some(NotRecommend) then Withdraw(state.notRecommendCount) else state.notRecommendCount;
        if voteType == Recommend then VotingState(Some(voteType), recommend + 1, notRecommend)
        else VotingState(Some(voteType), recommend, notRecommend + 1)
    case ResetVotes(recommend, notRecommend) => VotingState(None, recommend, notRecommend)
    case OtherAction => state
  }

  /** Counts are never negative, and the user's own vote is among them. */
  predicate Consistent(s: VotingState)
  {
    s.recommendCount >= 0 && s.notRecommendCount >= 0
    && (s.userVote.Some? ==> Count(s, s.userVote.value) >= 1)
  }

  /** Every action with non-negative counts keeps the state consistent. */
  lemma ReducerKeepsConsistent(state: VotingState, action: VotingAction)
    requires Consistent(state)
    requires action.ResetVotes? ==> action.recommend >= 0 && action.notRecommend >= 0
    ensures Consistent(VotingReducer(state, action))
  {
    if action.ToggleVote? {
      var v := action.voteType;
      var r := VotingReducer(state, action);
      assert Count(r, v) >= 0 && Count(r, Other(v)) >= 0;
      assert r.recommendCount == Count(r, Recommend) && r.notRecommendCount == Count(r, NotRecommend);
      assert v == Recommend || Other(v) == Recommend;
    }
  }

  /** From a consistent state, a toggle changes the total by the change in the user's own vote. */
  lemma ToggleKeepsTotal(state: VotingState, v: Vote)
    requires Consistent(state)
    ensures var r := VotingReducer(state, ToggleVote(v));
            r.recommendCount + r.notRecommendCount
            == state.recommendCount + state.notRecommendCount
               + (if r.userVote.Some? then 1 else 0) - (if state.userVote.Some? then 1 else 0)
  {
    var r := VotingReducer(state, ToggleVote(v));
    assert r.recommendCount + r.notRecommendCount == Count(r, v) + Count(r, Other(v)) by {
      assert v == Recommend || v == NotRecommend;
    }
    assert state.recommendCount + state.notRecommendCount == Count(state, v) + Count(state, Other(v)) by {
      assert v == Recommend || v == NotRecommend;
    }
    if state.userVote.Some? && state.userVote != Some(v) {
      assert state.userVote.value == Other(v);
    }
  }

  /** Voting and then taking the vote back restores a consistent state with no vote. */
  lemma {:induction false} VoteThenUnvote(state: VotingState, v: Vote)
    requires Consistent(state) && state.userVote.None?
    ensures VotingReducer(VotingReducer(state, ToggleVote(v)), ToggleVote(v)) == state
  {
    var once := VotingReducer(state, ToggleVote(v));
    assert Count(once, v) == Count(state, v) + 1;
    assert Count(once, Other(v)) == Count(state, Other(v));
    var twice := VotingReducer(once, ToggleVote(v));
    assert Count(twice, v) == Count(state, v);
    assert Count(twice, Other(v)) == Count(state, Other(v));
    assert twice.recommendCount == state.recommendCount && twice.notRecommendCount == state.notRecommendCount by {
      assert v == Recommend || v == NotRecommend;
    }
  }

  /** Switching to the other vote and back restores a consistent state. */
  lemma {:induction false} SwitchBack(state: VotingState, v: Vote)
    requires Consistent(state) && state.userVote == Some(v)
    ensures VotingReducer(VotingReducer(state, ToggleVote(Other(v))), ToggleVote(v)) == state
  {
    var once := VotingReducer(state, ToggleVote(Other(v)));
    assert Other(Other(v)) == v;
    assert Count(once, v) == Count(state, v) - 1;
    assert Count(once, Other(v)) == Count(state, Other(v)) + 1;
    var twice := VotingReducer(once, ToggleVote(v));
    assert Count(twice, v) == Count(state, v);
    assert Count(twice, Other(v)) == Count(state, Other(v));
    assert twice.recommendCount == state.recommendCount && twice.notRecommendCount == state.notRecommendCount by {
      assert v == Recommend || v == NotRecommend;
    }
  }

  /** Without the consistency invariant, withdrawing a vote from a zero count loses it for good. */
  lemma InconsistentVoteLost()
    ensures var s := VotingState(Some(Recommend), 0, 0);
            VotingReducer(VotingReducer(s, ToggleVote(Recommend)), ToggleVote(Recommend)) != s
  {
    var s := VotingState(Some(Recommend), 0, 0);
    assert VotingReducer(s, ToggleVote(Recommend)) == VotingState(None, 0, 0);
  }

  // ---------------------------------------------------------------------
  // Review card
  // ---------------------------------------------------------------------

  /** More than this many milliseconds between creation and update marks a review as edited. */
  const EditedAfterMs: int := 60000

  /**
    A review counts as edited when it has an update time and both times are
    valid (`None` stands for a missing or unparsable time) and the update is
    more than a minute after creation.
   */
  predicate IsEdited(created: Option<int>, updated: Option<int>)
  {
    created.Some? && updated.Some? && updated.value - created.value > EditedAfterMs
  }

  /** A later update of an edited review is still an edit; an update within the minute never is. */
  lemma EditedMonotone(created: int, updated: int, later: int)
    requires updated <= later
    ensures IsEdited(Some(created), Some(updated)) ==> IsEdited(Some(created), Some(later))
    ensures updated - created <= EditedAfterMs ==> !IsEdited(Some(created), Some(updated))
  {
  }

  /** The reply button's text: the reply count when there is a non-zero one, else the plain action. */
  datatype RepliesLabel = ReplyAction | RepliesCount(count: int)

  function RepliesLabelFor(repliesCount: Option<int>): (r: RepliesLabel)
    ensures r.RepliesCount? <==> repliesCount.Some? && repliesCount.value != 0
    ensures r.RepliesCount? ==> r.count == repliesCount.value
  {
    match repliesCount
    case Some(n) => if n != 0 then RepliesCount(n) else ReplyAction
    case None => ReplyAction
  }

  datatype ReviewCardView = ReviewCardView(initials: string, edited: bool, replies: RepliesLabel)

  /**
    The review card: nothing at all for a review without an id or an author
    name; otherwise the author's initials, the edited mark and the reply
    button's label.
   */
  function ReviewCard(review: Review): (v: Option<ReviewCardView>)
    ensures v.None? <==> review.id == "" || review.author.name == ""
    ensures v.Some? ==> v.value.initials == Initials(review.author.name)
    ensures v.Some? ==> (v.value.edited <==> IsEdited(Some(review.createdAt), review.updatedAt))
    ensures v.Some? ==> (v.value.replies.RepliesCount? <==> review.repliesCount.Some? && review.repliesCount.value != 0)
  {
    if review.id == "" || review.author.name == "" then None
    else
      Some(ReviewCardView(
        Initials(review.author.name),
        IsEdited(Some(review.createdAt), review.updatedAt),
        RepliesLabelFor(review.repliesCount)))
  }

  /** A blank (but non-empty) author name passes the card's guard and shows `?`. */
  lemma BlankAuthorShown(review: Review)
    requires review.id != "" && review.author.name == " "
    ensures ReviewCard(review).Some? && ReviewCard(review).value.initials == NoInitials
  {
    assert AllSpace(review.author.name);
  }

  /** The card reads only the id, the author's name, the two times and the reply count. */
  lemma ReviewCardFrame(a: Review, b: Review)
    requires a.id == b.id && a.author.name == b.author.name
    requires a.createdAt == b.createdAt && a.updatedAt == b.updatedAt && a.repliesCount == b.repliesCount
    ensures ReviewCard(a) == ReviewCard(b)
  {
  }

  // ---------------------------------------------------------------------
  // Review-reply card
  // ---------------------------------------------------------------------

  datatype ReplyCardView =
    | DeletedReply
    | ReplyShown(initials: string, canDelete: bool)

  /**
    The reply card: a deleted reply shows only the placeholder; any other
    reply shows its author's initials and offers deletion to its author.
   */
  function ReplyCard(reply: Reply, userId: Option<string>): (v: ReplyCardView)
    ensures v.DeletedReply? <==> reply.isDeleted
    ensures v.ReplyShown? ==> v.initials == Initials(reply.author.name)
    ensures v.ReplyShown? ==> (v.canDelete <==> userId.Some? && userId.value != "" && userId.value == reply.author.id)
  {
    InitialsAgree(reply.author.name);
    if reply.isDeleted then DeletedReply
    else ReplyShown(ReplyInitials(reply.author.name), CanDelete(userId, reply.author.id))
  }

  /** The reply card's delete handler passes the reply's own id. */
  lemma ReplyDeleteTargetsReply(reply: Reply, hasHandler: bool)
    ensures DeleteRequest(hasHandler, false, reply.id) == (if hasHandler then Some(reply.id) else None)
    ensures DeleteRequest(hasHandler, true, reply.id).None?
  {
  }

  /** A review card and a reply card whose authors have the same name show the same initials. */
  lemma SameAuthorSameInitials(review: Review, reply: Reply, userId: Option<string>)
    requires review.author.name == reply.author.name
    requires ReviewCard(review).Some? && ReplyCard(reply, userId).ReplyShown?
    ensures ReviewCard(review).value.initials == ReplyCard(reply, userId).initials
  {
  }
}
