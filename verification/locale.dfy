/**
  The two language normalisers of the front end: `normalizeLanguage`,
  which inspects prefixes and markers of any input, and the language
  detector's `convertDetectedLanguage`, an exact-key lookup table.
 */
module Locale {
  import opened Wrappers
  import opened Text

  /** The supported languages, as BCP 47 codes. */
  datatype Language = ZhCN | ZhHK | EnUS

  function Code(l: Language): string
  {
    match l
    case ZhCN => "zh-CN"
    case ZhHK => "zh-HK"
    case EnUS => "en-US"
  }

  /** The default language of `normalizeLanguage`'s fallback. */
  const DefaultLanguage: Language := EnUS

  /** The markers that send a Chinese tag to traditional Chinese. */
  predicate TraditionalMarker(lower: string)
  {
    Contains(lower, "hant") || Contains(lower, "tw") || Contains(lower, "hk") || Contains(lower, "mo")
  }

  /**
    `normalizeLanguage`: nothing for a missing or empty input; an exact
    supported code (after trimming) as itself; a tag starting with `zh` (any
    case) as traditional Chinese when it carries a traditional marker and
    simplified Chinese otherwise; a tag starting with `en` as English, and
    everything else, including a blank input, as English too.
   */
  function NormalizeLanguage(raw: Option<string>): (r: Option<Language>)
    ensures r.None? <==> raw.None? || raw.value == ""
  {
    match raw
    case None => None
    case Some(s) =>
      if s == "" then None
      else
        var trimmed := Trim(s);
        var lower := Lower(trimmed);
        if trimmed == "zh-CN" then Some(ZhCN)
        else if trimmed == "zh-HK" then Some(ZhHK)
        else if trimmed == "en-US" then Some(EnUS)
        else if "zh" <= lower then Some(if TraditionalMarker(lower) then ZhHK else ZhCN)
        else if "en" <= lower then Some(EnUS)
        else Some(DefaultLanguage)
  }

  /**
    A reference classification that looks only at the lower-cased tag:
    Chinese with or without a traditional marker, and English for the rest.
   */
  function Classify(lower: string): Language
  {
    if "zh" <= lower then (if TraditionalMarker(lower) then ZhHK else ZhCN) else EnUS
  }

  /** None of the four markers occurs in `s`, witnessed by a missing character of each. */
  lemma NoMarker(s: string)
    requires 't' !in s && 'k' !in s && 'm' !in s
    ensures !TraditionalMarker(s)
  {
    MissingChar(s, "hant", 3);
    MissingChar(s, "tw", 0);
    MissingChar(s, "hk", 1);
    MissingChar(s, "mo", 0);
  }

  lemma ZhCNClassify()
    ensures Classify(Lower("zh-CN")) == ZhCN
  {
    assert Lower("zh-CN") == "zh-cn";
    NoMarker("zh-cn");
    assert "zh" <= "zh-cn";
    assert TableEntry("zh-CN") == Some(ZhCN);
  }

  lemma ZhHKClassify()
    ensures Classify(Lower("zh-HK")) == ZhHK
  {
    assert Lower("zh-HK") == "zh-hk";
    assert Contains("zh-hk", "hk");
  }

  lemma EnUSClassify()
    ensures Classify(Lower("en-US")) == EnUS
  {
    assert Lower("en-US") == "en-us";
    assert "en-us"[0] != "zh"[0];
  }

  /**
    The exact-code branches are shortcuts: a non-empty input normalises to
    the classification of its trimmed, lower-cased text, so surrounding
    whitespace and letter case never change the outcome.
   */
  lemma NormalizeIsClassify(s: string)
    requires s != ""
    ensures NormalizeLanguage(Some(s)) == Some(Classify(Lower(Trim(s))))
  {
    var t := Trim(s);
    if t == "zh-CN" {
      ZhCNClassify();
    } else if t == "zh-HK" {
      ZhHKClassify();
    } else if t == "en-US" {
      EnUSClassify();
    }
  }

  /** Every supported code normalises to itself. */
  lemma NormalizeCode(l: Language)
    ensures NormalizeLanguage(Some(Code(l))) == Some(l)
  {
    TrimNoop(Code(l));
  }

  /** Normalising the code of a normalised language changes nothing. */
  lemma NormalizeIdempotent(raw: Option<string>)
    requires NormalizeLanguage(raw).Some?
    ensures NormalizeLanguage(Some(Code(NormalizeLanguage(raw).value))) == NormalizeLanguage(raw)
  {
    NormalizeCode(NormalizeLanguage(raw).value);
  }

  /** A blank input is not "missing": it falls back to English. */
  lemma NormalizeBlank()
    ensures NormalizeLanguage(Some(" ")) == Some(EnUS)
  {
    assert AllSpace(" ");
  }

  // ---------------------------------------------------------------------
  // The language detector's table
  // ---------------------------------------------------------------------

  /** The table's own keys and what each maps to. */
  function TableEntry(lng: string): Option<Language>
  {
    if lng == "zh" || lng == "zh-cn" || lng == "zh-CN" || lng == "zh-Hans" then Some(ZhCN)
    else if lng == "zh-hk" || lng == "zh-HK" || lng == "zh-Hant" then Some(ZhHK)
    else if lng == "en" || lng == "en-us" || lng == "en-US" then Some(EnUS)
    else None
  }

  const TableKeys: seq<string> := ["zh", "zh-cn", "zh-CN", "zh-Hans", "zh-hk", "zh-HK", "zh-Hant", "en", "en-us", "en-US"]

  /**
    The names every JavaScript object inherits from `Object.prototype`; an
    object-literal lookup such as `languageMap[lng]` finds them too.
   */
  const InheritedKeys: seq<string> := [
    "constructor", "hasOwnProperty", "isPrototypeOf", "propertyIsEnumerable",
    "toLocaleString", "toString", "valueOf", "__proto__",
    "__defineGetter__", "__defineSetter__", "__lookupGetter__", "__lookupSetter__"]

  /** What `languageMap[lng] || 'zh-CN'` yields: a language, or an inherited member. */
  datatype Lookup = Lang(lang: Language) | Inherited(name: string)

  /**
    `convertDetectedLanguage` as written: an own key yields its language,
    an inherited member name yields that (truthy) member, anything else
    simplified Chinese.
   */
  function ConvertDetectedAsWritten(lng: string): (r: Lookup)
    ensures lng in TableKeys ==> r == Lang(TableEntry(lng).value)
    ensures lng in InheritedKeys ==> r == Inherited(lng)
    ensures lng !in TableKeys && lng !in InheritedKeys ==> r == Lang(ZhCN)
  {
    if TableEntry(lng).Some? then Lang(TableEntry(lng).value)
    else if lng in InheritedKeys then Inherited(lng)
    else Lang(ZhCN)
  }

  /** The as-written lookup hands a function, not a language, back for `"toString"`. */
  lemma ConvertLeaksInherited()
    ensures ConvertDetectedAsWritten("toString") == Inherited("toString")
  {
  }

  /**
    The lookup restricted to the table's own keys: every input yields one
    of the supported languages, and simplified Chinese off the table.
   */
  function ConvertDetectedLanguage(lng: string): (r: Language)
    ensures lng in TableKeys ==> Some(r) == TableEntry(lng)
    ensures lng !in TableKeys ==> r == ZhCN
  {
    TableEntry(lng).GetOr(ZhCN)
  }

  /** On every input outside the inherited names, the corrected lookup and the written one agree. */
  lemma ConvertAgreesOffInherited(lng: string)
    requires lng !in InheritedKeys
    ensures ConvertDetectedAsWritten(lng) == Lang(ConvertDetectedLanguage(lng))
  {
  }

  /** The two normalisers agree on every key of the table. */
  lemma NormalisersAgreeOnTable(lng: string)
    requires lng in TableKeys
    ensures NormalizeLanguage(Some(lng)) == Some(ConvertDetectedLanguage(lng))
  {
    TableKeyFacts(lng);
    NormalizeIsClassify(lng);
    assert NormalizeLanguage(Some(lng)) == Some(Classify(Lower(lng)));
  }

  /** A table key is non-empty, already trimmed, and maps to the classification of its lower-cased text. */
  predicate KeyOk(lng: string)
  {
    lng != "" && Trim(lng) == lng && Some(Classify(Lower(lng))) == TableEntry(lng)
  }

  lemma TableKeyFacts(lng: string)
    requires lng in TableKeys
    ensures KeyOk(lng)
  {
    if lng == "zh" {
      KeyZh();
    } else if lng == "zh-cn" {
      KeyZhCnLower();
    } else if lng == "zh-CN" {
      KeyZhCN();
    } else if lng == "zh-Hans" {
      KeyZhHans();
    } else if lng == "zh-hk" {
      KeyZhHkLower();
    } else if lng == "zh-HK" {
      KeyZhHK();
    } else if lng == "zh-Hant" {
      KeyZhHant();
    } else if lng == "en" {
      KeyEn();
    } else if lng == "en-us" {
      KeyEnUsLower();
    } else {
      assert lng == "en-US";
      KeyEnUS();
    }
  }

  lemma KeyZh()
    ensures KeyOk("zh")
  {
    TrimNoop("zh");
    assert Lower("zh") == "zh";
    NoMarker("zh");
  }

  lemma KeyZhCnLower()
    ensures KeyOk("zh-cn")
  {
    TrimNoop("zh-cn");
    assert Lower("zh-cn") == "zh-cn";
    NoMarker("zh-cn");
    assert "zh" <= "zh-cn";
    assert TableEntry("zh-cn") == Some(ZhCN);
  }

  lemma KeyZhCN()
    ensures KeyOk("zh-CN")
  {
    TrimNoop("zh-CN");
    assert Lower("zh-CN") == "zh-cn";
    NoMarker("zh-cn");
    assert "zh" <= "zh-cn";
    assert TableEntry("zh-CN") == Some(ZhCN);
  }

  lemma KeyZhHans()
    ensures KeyOk("zh-Hans")
  {
    TrimNoop("zh-Hans");
    assert Lower("zh-Hans") == "zh-hans";
    NoMarker("zh-hans");
    assert "zh" <= "zh-hans";
    assert TableEntry("zh-Hans") == Some(ZhCN);
  }

  lemma KeyZhHkLower()
    ensures KeyOk("zh-hk")
  {
    TrimNoop("zh-hk");
    assert Lower("zh-hk") == "zh-hk";
    assert Contains("zh-hk", "hk");
  }

  lemma KeyZhHK()
    ensures KeyOk("zh-HK")
  {
    TrimNoop("zh-HK");
    assert Lower("zh-HK") == "zh-hk";
    assert Contains("zh-hk", "hk");
  }

  lemma KeyZhHant()
    ensures KeyOk("zh-Hant")
  {
    TrimNoop("zh-Hant");
    assert Lower("zh-Hant") == "zh-hant";
    assert Contains("zh-hant", "hant");
  }

  lemma KeyEn()
    ensures KeyOk("en")
  {
    TrimNoop("en");
    assert Lower("en") == "en";
  }

  lemma KeyEnUsLower()
    ensures KeyOk("en-us")
  {
    TrimNoop("en-us");
    assert Lower("en-us") == "en-us";
  }

  lemma KeyEnUS()
    ensures KeyOk("en-US")
  {
    TrimNoop("en-US");
    assert Lower("en-US") == "en-us";
  }

  lemma KeyZhTW()
    ensures Trim("zh-TW") == "zh-TW" && Classify(Lower("zh-TW")) == ZhHK
  {
    TrimNoop("zh-TW");
    assert Lower("zh-TW") == "zh-tw";
    assert Contains("zh-tw", "tw");
  }

  /** `zh-TW` is traditional Chinese for one normaliser and simplified for the other. */
  lemma NormalisersDisagree()
    ensures NormalizeLanguage(Some("zh-TW")) == Some(ZhHK)
    ensures ConvertDetectedLanguage("zh-TW") == ZhCN
  {
    KeyZhTW();
  }
}
