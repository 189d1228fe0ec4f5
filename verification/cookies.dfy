/**
  `getCookie`: the value of a named cookie in `document.cookie`, a list of
  `name=value` entries separated by "; ". Percent-decoding is a parameter
  that may fail.
 */
module Cookies {
  import opened Wrappers
  import opened Text
  import opened Seqs

  const EntrySep: string := "; "

  /** The text before the first "=", or the whole entry. */
  function EntryName(entry: string): (name: string)
    ensures IndexOfChar(entry, '=').None? ==> name == entry
    ensures IndexOfChar(entry, '=').Some? ==> name == entry[..IndexOfChar(entry, '=').value]
  {
    EqualsAt(entry);
    SplitHead(entry, "=");
    Split(entry, "=")[0]
  }

  /** Every part after the first, joined again by "=": everything after the first "=", or "". */
  function EntryValue(entry: string): (value: string)
    ensures IndexOfChar(entry, '=').None? ==> value == ""
    ensures IndexOfChar(entry, '=').Some? ==> value == entry[IndexOfChar(entry, '=').value + 1..]
  {
    EqualsAt(entry);
    JoinTail(entry, "=");
    Join(Split(entry, "=")[1..], "=")
  }

  /** The string search for "=" and the character search for '=' find the same place. */
  lemma EqualsAt(entry: string)
    ensures IndexOf(entry, "=") == IndexOfChar(entry, '=')
  {
    match IndexOf(entry, "=")
    case Some(i) =>
      assert entry[i] == '=';
      assert forall j :: 0 <= j < i ==> entry[j] != '=' by {
        forall j | 0 <= j < i ensures entry[j] != '=' {
          assert !("=" <= entry[j..]);
        }
      }
    case None =>
      assert forall j :: 0 <= j < |entry| ==> entry[j] != '=' by {
        forall j | 0 <= j < |entry| ensures entry[j] != '=' {
          assert !("=" <= entry[j..]);
        }
      }
  }

  /** `decodeURIComponent(value)`, or the raw value when decoding throws. */
  function Decoded(value: string, decode: string -> Option<string>): string
  {
    decode(value).GetOr(value)
  }

  /** The entries of the cookie string; an empty string has none. */
  function Entries(cookie: string): (entries: seq<string>)
    ensures cookie == "" ==> entries == []
    ensures cookie != "" ==> Join(entries, EntrySep) == cookie
  {
    if cookie == "" then [] else JoinSplit(cookie, EntrySep); Split(cookie, EntrySep)
  }

  /**
    `getCookie(name)`: nothing without a document; otherwise the decoded
    value of the first entry whose name is exactly `name`, or nothing when
    no entry has it.
   */
  function GetCookie(document: Option<string>, name: string, decode: string -> Option<string>): (r: Option<string>)
    ensures document.None? ==> r.None?
    ensures document == Some("") ==> r.None?
    ensures document.Some? ==>
              var entries := Entries(document.value);
              (r.None? <==> forall k :: 0 <= k < |entries| ==> EntryName(entries[k]) != name)
    ensures r.Some? ==>
              var entries := Entries(document.value);
              exists k :: 0 <= k < |entries| && EntryName(entries[k]) == name
                       && (forall j :: 0 <= j < k ==> EntryName(entries[j]) != name)
                       && r.value == Decoded(EntryValue(entries[k]), decode)
  {
    match document
    case None => None
    case Some(cookie) =>
      var entries := Entries(cookie);
      match FindIndex(entries, e => EntryName(e) == name)
      case None => None
      case Some(k) => Some(Decoded(EntryValue(entries[k]), decode))
  }

  // ---------------------------------------------------------------------
  // Writing a cookie string and reading it back
  // ---------------------------------------------------------------------

  datatype Pair = Pair(name: string, value: string)

  function Render(p: Pair): string
  {
    p.name + "=" + p.value
  }

  /** A name without "=" and a value without "; " read back from their entry. */
  lemma EntryRoundTrip(p: Pair)
    requires '=' !in p.name
    ensures EntryName(Render(p)) == p.name
    ensures EntryValue(Render(p)) == p.value
  {
    var e := Render(p);
    assert e[|p.name|] == '=';
    assert forall j :: 0 <= j < |p.name| ==> e[j] == p.name[j];
    assert IndexOfChar(e, '=') == Some(|p.name|);
    assert e[..|p.name|] == p.name;
    assert e[|p.name| + 1..] == p.value;
  }

  /** The cookie string a list of pairs makes. */
  function RenderAll(pairs: seq<Pair>): string
  {
    Join(seq(|pairs|, i requires 0 <= i < |pairs| => Render(pairs[i])), EntrySep)
  }

  /** A pair whose parts cannot be confused with the separators. */
  predicate WellFormed(p: Pair)
  {
    '=' !in p.name && IndexOf(Render(p), EntrySep).None?
  }

  /** The first "; " of `x + "; " + y` is the one just after `x` when `x` has none. */
  lemma {:induction false} FirstSepAfter(x: string, y: string)
    requires IndexOf(x, EntrySep).None?
    ensures IndexOf(x + EntrySep + y, EntrySep) == Some(|x|)
  {
    var s := x + EntrySep + y;
    assert EntrySep <= s[|x|..];
    forall j | 0 <= j < |x|
      ensures !(EntrySep <= s[j..])
    {
      if j + 2 <= |x| {
        assert s[j..j + 2] == x[j..j + 2];
        assert !(EntrySep <= x[j..]);
      } else {
        assert s[j + 1] == ';';
      }
    }
  }

  /** Splitting a joined list of separator-free strings gives the list back. */
  lemma {:induction false} SplitJoin(xs: seq<string>)
    requires |xs| >= 1
    requires forall i :: 0 <= i < |xs| ==> IndexOf(xs[i], EntrySep).None?
    ensures Split(Join(xs, EntrySep), EntrySep) == xs
    decreases |xs|
  {
    if |xs| > 1 {
      var rest := Join(xs[1..], EntrySep);
      FirstSepAfter(xs[0], rest);
      var s := xs[0] + EntrySep + rest;
      assert s[..|xs[0]|] == xs[0];
      assert s[|xs[0]| + 2..] == rest;
      SplitJoin(xs[1..]);
      assert xs == [xs[0]] + xs[1..];
    }
  }

  /**
    Reading a cookie string written from well-formed pairs finds the first
    pair with the requested name and gives back its decoded value.
   */
  lemma GetCookieRoundTrip(pairs: seq<Pair>, name: string, decode: string -> Option<string>)
    requires |pairs| >= 1
    requires forall i :: 0 <= i < |pairs| ==> WellFormed(pairs[i])
    ensures var r := GetCookie(Some(RenderAll(pairs)), name, decode);
            match FindIndex(pairs, (p: Pair) => p.name == name)
            case None => r.None?
            case Some(k) => r == Some(Decoded(pairs[k].value, decode))
  {
    var rendered := seq(|pairs|, i requires 0 <= i < |pairs| => Render(pairs[i]));
    EntriesOfRendered(pairs);
    forall i | 0 <= i < |pairs|
      ensures EntryName(rendered[i]) == pairs[i].name && EntryValue(rendered[i]) == pairs[i].value
    {
      EntryRoundTrip(pairs[i]);
    }
    SameFirstMatch(pairs, rendered, name);
  }

  lemma EntriesOfRendered(pairs: seq<Pair>)
    requires |pairs| >= 1
    requires forall i :: 0 <= i < |pairs| ==> WellFormed(pairs[i])
    ensures RenderAll(pairs) != ""
    ensures Entries(RenderAll(pairs)) == seq(|pairs|, i requires 0 <= i < |pairs| => Render(pairs[i]))
  {
    var rendered := seq(|pairs|, i requires 0 <= i < |pairs| => Render(pairs[i]));
    SplitJoin(rendered);
    JoinFirst(rendered);
  }

  /** Matching entries by name finds the same position as matching pairs by name. */
  lemma {:induction false} SameFirstMatch(pairs: seq<Pair>, entries: seq<string>, name: string)
    requires |entries| == |pairs|
    requires forall i :: 0 <= i < |pairs| ==> EntryName(entries[i]) == pairs[i].name
    ensures FindIndex(entries, e => EntryName(e) == name) == FindIndex(pairs, (p: Pair) => p.name == name)
    decreases |pairs|
  {
    if |pairs| > 0 {
      SameFirstMatch(pairs[1..], entries[1..], name);
    }
  }

  /** A join starts with its first part. */
  lemma JoinFirst(xs: seq<string>)
    requires |xs| >= 1
    ensures |Join(xs, EntrySep)| >= |xs[0]|
  {
  }
}
