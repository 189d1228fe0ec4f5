/**
  String helpers shared by the front end and the back end: whitespace,
  ASCII case mapping, trimming, substring search, splitting on a separator
  and splitting into whitespace-separated words.

  `IsSpace`, `Trim` and the case mappings are the ASCII subset of what
  JavaScript's `trim`, `\s`, `toLowerCase` and `toUpperCase` recognise.
  `IsPySpace` and `Strip` are Python's `str.isspace` and `str.strip()`, in
  full.
 */
module Text {
  import opened Wrappers

  /** Space, tab, line feed, vertical tab, form feed or carriage return. */
  predicate IsSpace(c: char)
  {
    c == ' ' || '\t' <= c <= '\r'
  }

  predicate AllSpace(s: string)
  {
    forall i :: 0 <= i < |s| ==> IsSpace(s[i])
  }

  function LowerChar(c: char): char
  {
    if 'A' <= c <= 'Z' then (c as int + 32) as char else c
  }

  function UpperChar(c: char): char
  {
    if 'a' <= c <= 'z' then (c as int - 32) as char else c
  }

  function Lower(s: string): (r: string)
    ensures |r| == |s|
    ensures forall i :: 0 <= i < |s| ==> r[i] == LowerChar(s[i])
  {
    seq(|s|, i requires 0 <= i < |s| => LowerChar(s[i]))
  }

  /** `s.endsWith(suffix)`. */
  predicate EndsWith(s: string, suffix: string)
  {
    |suffix| <= |s| && s[|s| - |suffix|..] == suffix
  }

  /** Leading whitespace removed. */
  function TrimStart(s: string): (r: string)
    ensures |r| <= |s| && r == s[|s| - |r|..]
    ensures forall i :: 0 <= i < |s| - |r| ==> IsSpace(s[i])
    ensures r != [] ==> !IsSpace(r[0])
    decreases |s|
  {
    if |s| > 0 && IsSpace(s[0]) then TrimStart(s[1..]) else s
  }

  /** Trailing whitespace removed. */
  function TrimEnd(s: string): (r: string)
    ensures |r| <= |s| && r == s[..|r|]
    ensures forall i :: |r| <= i < |s| ==> IsSpace(s[i])
    ensures r != [] ==> !IsSpace(r[|r| - 1])
    decreases |s|
  {
    if |s| > 0 && IsSpace(s[|s| - 1]) then TrimEnd(s[..|s| - 1]) else s
  }

  /** `s.trim()` in JavaScript, `s.strip()` in Python. */
  function Trim(s: string): (r: string)
    ensures |r| <= |s|
    ensures r == [] <==> AllSpace(s)
    ensures r != [] ==> !IsSpace(r[0]) && !IsSpace(r[|r| - 1])
  {
    TrimEnd(TrimStart(s))
  }

  /** Trimming a string that neither starts nor ends with whitespace changes nothing. */
  lemma TrimNoop(s: string)
    requires s == [] || (!IsSpace(s[0]) && !IsSpace(s[|s| - 1]))
    ensures Trim(s) == s
  {
  }

  /** Trimming twice is trimming once. */
  lemma TrimIdempotent(s: string)
    ensures Trim(Trim(s)) == Trim(s)
  {
    TrimNoop(Trim(s));
  }

  /**
    Python's `str.isspace` on one character: the ASCII whitespace above,
    the separators U+001C to U+001F, and the Unicode spaces and line breaks
    U+0085, U+00A0, U+1680, U+2000 to U+200A, U+2028, U+2029, U+202F,
    U+205F and U+3000.
   */
  predicate IsPySpace(c: char)
  {
    || IsSpace(c)
    || '\U{1C}' <= c <= '\U{1F}'
    || c == '\U{85}' || c == '\U{A0}' || c == '\U{1680}'
    || '\U{2000}' <= c <= '\U{200A}'
    || c == '\U{2028}' || c == '\U{2029}' || c == '\U{202F}' || c == '\U{205F}' || c == '\U{3000}'
  }

  predicate AllPySpace(s: string)
  {
    forall i :: 0 <= i < |s| ==> IsPySpace(s[i])
  }

  /** Leading Python whitespace removed: `s.lstrip()`. */
  function StripStart(s: string): (r: string)
    ensures |r| <= |s| && r == s[|s| - |r|..]
    ensures forall i :: 0 <= i < |s| - |r| ==> IsPySpace(s[i])
    ensures r != [] ==> !IsPySpace(r[0])
    decreases |s|
  {
    if |s| > 0 && IsPySpace(s[0]) then StripStart(s[1..]) else s
  }

  /** Trailing Python whitespace removed: `s.rstrip()`. */
  function StripEnd(s: string): (r: string)
    ensures |r| <= |s| && r == s[..|r|]
    ensures forall i :: |r| <= i < |s| ==> IsPySpace(s[i])
    ensures r != [] ==> !IsPySpace(r[|r| - 1])
    decreases |s|
  {
    if |s| > 0 && IsPySpace(s[|s| - 1]) then StripEnd(s[..|s| - 1]) else s
  }

  /** Python's `s.strip()` with no argument. */
  function Strip(s: string): (r: string)
    ensures |r| <= |s|
    ensures r == [] <==> AllPySpace(s)
    ensures r != [] ==> !IsPySpace(r[0]) && !IsPySpace(r[|r| - 1])
  {
    StripEnd(StripStart(s))
  }

  /** Stripping a string that neither starts nor ends with Python whitespace changes nothing. */
  lemma StripNoop(s: string)
    requires s == [] || (!IsPySpace(s[0]) && !IsPySpace(s[|s| - 1]))
    ensures Strip(s) == s
  {
  }

  /** Leading whitespace is skipped whatever follows it. */
  lemma {:induction false} StripStartSpaces(p: string, t: string)
    requires AllPySpace(p)
    ensures StripStart(p + t) == StripStart(t)
    decreases |p|
  {
    if |p| > 0 {
      assert (p + t)[0] == p[0];
      assert (p + t)[1..] == p[1..] + t;
      StripStartSpaces(p[1..], t);
    } else {
      assert p + t == t;
    }
  }

  /** Trailing whitespace is skipped whatever precedes it. */
  lemma {:induction false} StripEndSpaces(t: string, q: string)
    requires AllPySpace(q)
    ensures StripEnd(t + q) == StripEnd(t)
    decreases |q|
  {
    if |q| > 0 {
      assert (t + q)[|t + q| - 1] == q[|q| - 1];
      assert (t + q)[..|t + q| - 1] == t + q[..|q| - 1];
      StripEndSpaces(t, q[..|q| - 1]);
    } else {
      assert t + q == t;
    }
  }

  /** Once a non-space character is reached, what follows is kept as it is. */
  lemma {:induction false} StripStartAppend(s: string, q: string)
    requires !AllPySpace(s)
    ensures StripStart(s + q) == StripStart(s) + q
    decreases |s|
  {
    assert (s + q)[0] == s[0];
    if IsPySpace(s[0]) {
      var i :| 0 <= i < |s| && !IsPySpace(s[i]);
      assert s[1..][i - 1] == s[i];
      assert (s + q)[1..] == s[1..] + q;
      StripStartAppend(s[1..], q);
    }
  }

  /** Surrounding Python whitespace does not change what `strip` returns. */
  lemma StripSurrounding(p: string, s: string, q: string)
    requires AllPySpace(p) && AllPySpace(q)
    ensures Strip(p + s + q) == Strip(s)
  {
    assert p + s + q == p + (s + q);
    StripStartSpaces(p, s + q);
    if AllPySpace(s) {
      StripStartSpaces(s, q);
      assert q + [] == q;
      StripStartSpaces(q, []);
    } else {
      StripStartAppend(s, q);
      StripEndSpaces(StripStart(s), q);
    }
  }

  /** Stripping twice is stripping once. */
  lemma StripIdempotent(s: string)
    ensures Strip(Strip(s)) == Strip(s)
  {
    StripNoop(Strip(s));
  }

  /** `s.includes(sub)`: `sub` occurs somewhere in `s`. */
  predicate Contains(s: string, sub: string)
    decreases |s|
  {
    sub <= s || (|s| > 0 && Contains(s[1..], sub))
  }

  /** `sub` cannot occur in `s` when one of its characters does not. */
  lemma {:induction false} MissingChar(s: string, sub: string, k: nat)
    requires k < |sub| && sub[k] !in s
    ensures !Contains(s, sub)
    decreases |s|
  {
    if |s| > 0 {
      assert forall c :: c in s[1..] ==> c in s;
      MissingChar(s[1..], sub, k);
    }
  }

  /** Position of the first occurrence of a non-empty separator. */
  function IndexOf(s: string, sep: string): (r: Option<nat>)
    requires |sep| > 0
    ensures r.Some? ==> r.value + |sep| <= |s| && sep <= s[r.value..]
    ensures r.Some? ==> forall j :: 0 <= j < r.value ==> !(sep <= s[j..])
    ensures r.None? ==> forall j :: 0 <= j <= |s| ==> !(sep <= s[j..])
    decreases |s|
  {
    if sep <= s then Some(0)
    else if |s| == 0 then None
    else
      match IndexOf(s[1..], sep)
      case None =>
        assert forall j :: 1 <= j <= |s| ==> s[j..] == s[1..][j - 1..];
        None
      case Some(i) =>
        assert forall j :: 1 <= j <= i + 1 ==> s[j..] == s[1..][j - 1..];
        Some(i + 1)
  }

  /** Position of the first occurrence of `c`. */
  function IndexOfChar(s: string, c: char): (r: Option<nat>)
    ensures r.Some? ==> r.value < |s| && s[r.value] == c
    ensures r.Some? ==> forall j :: 0 <= j < r.value ==> s[j] != c
    ensures r.None? <==> c !in s
    decreases |s|
  {
    if |s| == 0 then None
    else if s[0] == c then Some(0)
    else
      match IndexOfChar(s[1..], c)
      case None => None
      case Some(i) => Some(i + 1)
  }

  /** Position of the last occurrence of `c`. */
  function LastIndexOfChar(s: string, c: char): (r: Option<nat>)
    ensures r.Some? ==> r.value < |s| && s[r.value] == c
    ensures r.Some? ==> forall j :: r.value < j < |s| ==> s[j] != c
    ensures r.None? <==> c !in s
    decreases |s|
  {
    if |s| == 0 then None
    else if s[|s| - 1] == c then Some(|s| - 1)
    else
      assert forall j :: 0 <= j < |s| - 1 ==> s[..|s| - 1][j] == s[j];
      LastIndexOfChar(s[..|s| - 1], c)
  }

  /** `s.split(sep)` for a non-empty separator. */
  function Split(s: string, sep: string): (parts: seq<string>)
    requires |sep| > 0
    ensures |parts| >= 1
    decreases |s|
  {
    match IndexOf(s, sep)
    case None => [s]
    case Some(i) => [s[..i]] + Split(s[i + |sep|..], sep)
  }

  /** `parts.join(sep)`. */
  function Join(parts: seq<string>, sep: string): string
    decreases |parts|
  {
    if |parts| == 0 then ""
    else if |parts| == 1 then parts[0]
    else parts[0] + sep + Join(parts[1..], sep)
  }

  /** A string is the text before a match of `sep`, the match, and the text after it. */
  lemma AroundMatch(s: string, sep: string, i: nat)
    requires i + |sep| <= |s| && sep <= s[i..]
    ensures s == s[..i] + sep + s[i + |sep|..]
  {
    assert forall k :: 0 <= k < |sep| ==> s[i + k] == sep[k];
  }

  /** The split at a found separator: the text before it, then the split of the text after it. */
  lemma SplitAt(s: string, sep: string, i: nat)
    requires |sep| > 0 && IndexOf(s, sep) == Some(i)
    ensures i + |sep| <= |s|
    ensures Split(s, sep) == [s[..i]] + Split(s[i + |sep|..], sep)
    ensures s == s[..i] + sep + s[i + |sep|..]
  {
    AroundMatch(s, sep, i);
  }

  /** Joining a part in front of at least one other part puts one separator between them. */
  lemma JoinCons(x: string, tail: seq<string>, sep: string)
    requires |tail| >= 1
    ensures Join([x] + tail, sep) == x + sep + Join(tail, sep)
  {
    assert ([x] + tail)[1..] == tail;
  }

  /** A character of a joined text comes from the separator or from one of the parts. */
  lemma {:induction false} JoinChar(parts: seq<string>, sep: string, k: nat)
    requires k < |Join(parts, sep)|
    ensures Join(parts, sep)[k] in sep || exists i, j :: 0 <= i < |parts| && 0 <= j < |parts[i]| && Join(parts, sep)[k] == parts[i][j]
    decreases |parts|
  {
    if |parts| > 1 {
      var tail := Join(parts[1..], sep);
      assert Join(parts, sep) == parts[0] + sep + tail;
      if k < |parts[0]| {
        assert Join(parts, sep)[k] == parts[0][k];
      } else if k < |parts[0]| + |sep| {
        assert Join(parts, sep)[k] == sep[k - |parts[0]|];
      } else {
        var k' := k - |parts[0]| - |sep|;
        assert Join(parts, sep)[k] == tail[k'];
        JoinChar(parts[1..], sep, k');
        if tail[k'] !in sep {
          var i, j :| 0 <= i < |parts[1..]| && 0 <= j < |parts[1..][i]| && tail[k'] == parts[1..][i][j];
          assert parts[1..][i] == parts[i + 1];
        }
      }
    } else {
      assert Join(parts, sep)[k] == parts[0][k];
    }
  }

  /** Splitting and joining again with the same separator gives back the string. */
  lemma {:induction false} JoinSplit(s: string, sep: string)
    requires |sep| > 0
    ensures Join(Split(s, sep), sep) == s
    decreases |s|
  {
    match IndexOf(s, sep)
    case None =>
    case Some(i) =>
      SplitAt(s, sep, i);
      var rest := s[i + |sep|..];
      JoinSplit(rest, sep);
      JoinCons(s[..i], Split(rest, sep), sep);
  }

  /**
    Everything after the first separator, re-joined: the whole remainder
    when the separator occurs, and the empty string when it does not.
   */
  lemma {:induction false} JoinTail(s: string, sep: string)
    requires |sep| > 0
    ensures IndexOf(s, sep).None? ==> Join(Split(s, sep)[1..], sep) == ""
    ensures IndexOf(s, sep).Some? ==>
              Join(Split(s, sep)[1..], sep) == s[IndexOf(s, sep).value + |sep|..]
  {
    match IndexOf(s, sep)
    case None =>
      assert Split(s, sep) == [s];
    case Some(i) =>
      SplitAt(s, sep, i);
      var rest := s[i + |sep|..];
      assert Split(s, sep)[1..] == Split(rest, sep);
      JoinSplit(rest, sep);
  }

  /** The first part of a split is the text before the first separator, or all of it. */
  lemma SplitHead(s: string, sep: string)
    requires |sep| > 0
    ensures IndexOf(s, sep).None? ==> Split(s, sep)[0] == s
    ensures IndexOf(s, sep).Some? ==> Split(s, sep)[0] == s[..IndexOf(s, sep).value]
  {
  }

  /** The longest run of non-whitespace characters at the start of `s`. */
  function TakeWord(s: string): (w: string)
    ensures w <= s
    ensures forall i :: 0 <= i < |w| ==> !IsSpace(w[i])
    ensures |w| < |s| ==> IsSpace(s[|w|])
    ensures |s| > 0 && !IsSpace(s[0]) ==> |w| > 0
    decreases |s|
  {
    if |s| == 0 || IsSpace(s[0]) then [] else [s[0]] + TakeWord(s[1..])
  }

  /** A non-empty run of non-whitespace characters. */
  predicate IsWord(w: string)
  {
    |w| > 0 && forall j :: 0 <= j < |w| ==> !IsSpace(w[j])
  }

  /** `s.split(/\s+/).filter(Boolean)`: the maximal runs of non-whitespace characters. */
  function Words(s: string): (ws: seq<string>)
    ensures forall i :: 0 <= i < |ws| ==> IsWord(ws[i])
    ensures ws == [] <==> AllSpace(s)
    ensures |s| > 0 && !IsSpace(s[0]) ==> ws != [] && ws[0] == TakeWord(s)
    decreases |s|
  {
    if |s| == 0 then []
    else if IsSpace(s[0]) then
      assert AllSpace(s) <==> AllSpace(s[1..]) by {
        if AllSpace(s[1..]) {
          forall i | 0 <= i < |s| ensures IsSpace(s[i]) {
            if i > 0 { assert s[i] == s[1..][i - 1]; }
          }
        }
      }
      Words(s[1..])
    else
      var w := TakeWord(s);
      [w] + Words(s[|w|..])
  }
}
