/**
  Rules shared by the front end's review, reply and comment cards: the
  initials an avatar falls back to, who may delete an item, and the guard
  around a delete request.
 */
module CardRules {
  import opened Wrappers
  import opened Text

  /** The avatar text when a name has nothing to take initials from. */
  const NoInitials: string := "?"

  /** The upper-cased first characters of (at most) the first two words. */
  function FirstLetters(ws: seq<string>): (r: string)
    requires forall i :: 0 <= i < |ws| ==> |ws[i]| > 0
    ensures |r| == if |ws| < 2 then |ws| else 2
    ensures forall i :: 0 <= i < |r| ==> r[i] == UpperChar(ws[i][0])
  {
    if |ws| == 0 then ""
    else if |ws| == 1 then [UpperChar(ws[0][0])]
    else [UpperChar(ws[0][0]), UpperChar(ws[1][0])]
  }

  lemma TrimStartNoop(s: string)
    ensures s == [] || !IsSpace(s[0]) ==> TrimStart(s) == s
  {
  }

  /** The initials rule applied to a name that is already trimmed. */
  function InitialsOf(trimmed: string): (r: string)
    ensures trimmed == "" ==> r == NoInitials
    ensures trimmed != "" && !IsSpace(trimmed[0]) ==> |Words(trimmed)| > 0 && 1 <= |r| <= 2 && r[0] == UpperChar(trimmed[0])
    ensures trimmed != "" ==> (|r| == 2 <==> |Words(trimmed)| >= 2)
    ensures |r| == 2 ==> r[1] == UpperChar(Words(trimmed)[1][0])
  {
    if trimmed == "" then NoInitials
    else FirstLetters(Words(trimmed))
  }

  /**
    The avatar initials of the teacher and user avatars: a blank name shows
    `?`; otherwise the upper-cased first letters of the first two words of
    the trimmed name. A non-blank name always has a first word, so the
    source's further fallbacks are never reached.
   */
  function Initials(name: string): (r: string)
    ensures AllSpace(name) ==> r == NoInitials
    ensures !AllSpace(name) ==> 1 <= |r| <= 2 && r[0] == UpperChar(Trim(name)[0])
    ensures !AllSpace(name) ==> (|r| == 2 <==> |Words(Trim(name))| >= 2)
    ensures |r| == 2 ==> r[1] == UpperChar(Words(Trim(name))[1][0])
  {
    InitialsOf(Trim(name))
  }

  /** Initials look only at the trimmed name. */
  lemma InitialsTrimmed(name: string)
    ensures Initials(Trim(name)) == Initials(name)
  {
    TrimIdempotent(name);
    assert Initials(Trim(name)) == InitialsOf(Trim(Trim(name)));
  }

  /**
    The reply card's initials: the name, or `?` when it is empty, trimmed;
    then the same rule as the avatars.
   */
  function ReplyInitials(name: string): (r: string)
    ensures name == "" ==> r == NoInitials
    ensures name != "" ==> r == Initials(name)
  {
    InitialsOf(Trim(if name == "" then NoInitials else name))
  }

  /** Both initials rules show the same text for every name. */
  lemma InitialsAgree(name: string)
    ensures ReplyInitials(name) == Initials(name)
  {
    if name == "" {
      assert AllSpace(name);
    }
  }

  /**
    Delete permission of the reply card and of the plain comment: a signed-in
    user (a non-empty id) who wrote the item.
   */
  predicate CanDelete(userId: Option<string>, authorId: string)
  {
    userId.Some? && userId.value != "" && userId.value == authorId
  }

  /** The comment card's stricter permission: the user id must not be blank either. */
  predicate CanDeleteTrimmed(userId: Option<string>, authorId: string)
  {
    userId.Some? && userId.value != "" && Trim(userId.value) != "" && userId.value == authorId
  }

  /** The two permissions differ exactly on blank ids. */
  lemma CanDeleteRelation(userId: Option<string>, authorId: string)
    ensures CanDeleteTrimmed(userId, authorId) ==> CanDelete(userId, authorId)
    ensures !AllSpace(authorId) ==> (CanDeleteTrimmed(userId, authorId) <==> CanDelete(userId, authorId))
    ensures CanDelete(userId, authorId) && !CanDeleteTrimmed(userId, authorId) ==> AllSpace(authorId)
  {
  }

  /** A user whose id is a single space may delete a reply written under that id, but not a comment card. */
  lemma BlankIdWitness()
    ensures CanDelete(Some(" "), " ") && !CanDeleteTrimmed(Some(" "), " ")
  {
    assert AllSpace(" ");
  }

  /**
    The cards' delete handlers: the item's id goes to the delete callback
    only when there is a callback and no delete is already in progress.
   */
  function DeleteRequest(hasHandler: bool, isDeleting: bool, id: string): (r: Option<string>)
    ensures r.Some? <==> hasHandler && !isDeleting
    ensures r.Some? ==> r.value == id
  {
    if !hasHandler || isDeleting then None else Some(id)
  }
}
