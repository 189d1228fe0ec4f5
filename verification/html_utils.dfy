/**
  Plain text from HTML for previews: entity decoding (a parameter), removal
  of every `<...>` span by the pattern `/<[^>]*>/g`, trimming, and
  truncation with an ellipsis.
 */
module HtmlUtils {
  import opened Text

  /** No `<` stands before a later `>`: the pattern has nothing left to match. */
  predicate NoTag(s: string)
  {
    forall i, j :: 0 <= i < j < |s| ==> !(s[i] == '<' && s[j] == '>')
  }

  /**
    A left-to-right global replace of `/<[^>]*>/` by the empty string: a `<`
    with a `>` somewhere after it starts a match that ends at the first such
    `>`; a `<` without one is kept like any other character.
   */
  function RemoveTags(s: string): (r: string)
    ensures NoTag(r)
    ensures forall c :: c in r ==> c in s
    ensures |r| <= |s|
    decreases |s|, 1
  {
    if |s| == 0 then ""
    else
      match IndexOfChar(s[1..], '>')
      case Some(k) =>
        if s[0] == '<' then
          var r := RemoveTags(s[k + 2..]);
          assert forall c :: c in s[k + 2..] ==> c in s;
          r
        else KeepFirst(s)
      case None => KeepFirst(s)
  }

  /** The first character kept, the rest with its tags removed. */
  function KeepFirst(s: string): (r: string)
    requires |s| > 0
    requires s[0] == '<' ==> '>' !in s[1..]
    ensures NoTag(r)
    ensures forall c :: c in r ==> c in s
    ensures |r| <= |s|
    decreases |s|, 0
  {
    var tail := RemoveTags(s[1..]);
    var r := [s[0]] + tail;
    assert forall j :: 0 < j < |r| ==> r[j] in tail;
    assert forall c :: c in s[1..] ==> c in s;
    r
  }

  /** Text that has no tag left is unchanged, so removing tags twice is removing them once. */
  lemma {:induction false} RemoveTagsFixpoint(s: string)
    requires NoTag(s)
    ensures RemoveTags(s) == s
    decreases |s|
  {
    if |s| > 0 {
      assert NoTag(s[1..]);
      RemoveTagsFixpoint(s[1..]);
      match IndexOfChar(s[1..], '>')
      case Some(k) =>
        assert s[k + 1] == '>';
      case None =>
    }
  }

  lemma RemoveTagsIdempotent(s: string)
    ensures RemoveTags(RemoveTags(s)) == RemoveTags(s)
  {
    RemoveTagsFixpoint(RemoveTags(s));
  }

  /** Without any `<` there is nothing to remove. */
  lemma RemoveTagsNoOpen(s: string)
    requires '<' !in s
    ensures RemoveTags(s) == s
  {
    RemoveTagsFixpoint(s);
  }

  /** A slice of tag-free text is tag-free. */
  lemma NoTagSlice(s: string, a: nat, b: nat)
    requires NoTag(s) && a <= b <= |s|
    ensures NoTag(s[a..b])
  {
    forall i, j | 0 <= i < j < b - a
      ensures !(s[a..b][i] == '<' && s[a..b][j] == '>')
    {
      assert s[a..b][i] == s[a + i] && s[a..b][j] == s[a + j];
    }
  }

  /** Trimming keeps text tag-free and adds no character. */
  lemma TrimNoTag(s: string)
    requires NoTag(s)
    ensures NoTag(Trim(s))
    ensures forall c :: c in Trim(s) ==> c in s
  {
    var started := TrimStart(s);
    NoTagSlice(s, |s| - |started|, |s|);
    var r := TrimEnd(started);
    NoTagSlice(started, 0, |r|);
    assert forall c :: c in r ==> c in started;
    assert forall c :: c in started ==> c in s;
  }

  /** `stripHtmlTags`: decode entities, remove tags, trim. */
  function StripHtmlTags(html: string, decode: string -> string): (r: string)
    ensures NoTag(r)
    ensures r == [] || (!IsSpace(r[0]) && !IsSpace(r[|r| - 1]))
    ensures forall c :: c in r ==> c in decode(html)
  {
    var decoded := decode(html);
    var removed := RemoveTags(decoded);
    TrimNoTag(removed);
    var r := Trim(removed);
    assert forall c :: c in r ==> c in decoded;
    r
  }

  const DefaultMaxLength: int := 150
  const Ellipsis: string := "..."

  /** JavaScript's `s.slice(0, end)`: a negative end counts from the back. */
  function SliceTo(s: string, end: int): (r: string)
    ensures r <= s
    ensures 0 <= end <= |s| ==> |r| == end
    ensures end < 0 ==> |r| == if |s| + end < 0 then 0 else |s| + end
  {
    if end < 0 then (if |s| + end < 0 then [] else s[..|s| + end])
    else if end > |s| then s
    else s[..end]
  }

  /**
    `truncateHtmlContent`: the plain text when it fits in `maxLength`
    characters, else its first `maxLength` characters and "...".
   */
  function TruncateHtmlContent(html: string, decode: string -> string, maxLength: int): (r: string)
    ensures var plain := StripHtmlTags(html, decode);
            |plain| <= maxLength ==> r == plain
    ensures var plain := StripHtmlTags(html, decode);
            0 <= maxLength < |plain| ==> |r| == maxLength + 3 && r[..maxLength] == plain[..maxLength]
    ensures var plain := StripHtmlTags(html, decode);
            r == plain || (|r| >= 3 && r[..|r| - 3] <= plain && r[|r| - 3..] == Ellipsis)
  {
    var plain := StripHtmlTags(html, decode);
    if |plain| <= maxLength then plain
    else
      var head := SliceTo(plain, maxLength);
      var r := head + Ellipsis;
      assert r[..|r| - 3] == head;
      r
  }

  /** The result fits in `maxLength` exactly when the plain text already did. */
  lemma TruncateFits(html: string, decode: string -> string, maxLength: nat)
    ensures |TruncateHtmlContent(html, decode, maxLength)| <= maxLength
        <==> |StripHtmlTags(html, decode)| <= maxLength
  {
  }
}
