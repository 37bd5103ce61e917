/** The relay's value types: the two-valued language code with its display
    and case-insensitive parse, and the records that flow through the
    pipeline. */
module Types {
  import opened Wrappers
  import opened Strings

  datatype LanguageCode = En | Zh

  /** `Display`: the lower-case two-letter code. */
  function Show(c: LanguageCode): (s: string)
    ensures IsCodeSpelling(s) && ToLower(s) == s
  {
    match c
    case En => "en"
    case Zh => "zh"
  }

  /** `t` spells the lower-case word `w` in any mix of ASCII cases. */
  predicate CaseVariantOf(t: string, w: string) {
    |t| == |w| && forall i :: 0 <= i < |t| ==> t[i] == w[i] || t[i] == UpperAscii(w[i])
  }

  /** One of the spellings that name a language code: `(?i)(en|zh)`. */
  predicate IsCodeSpelling(t: string) {
    && |t| == 2
    && (|| ((t[0] == 'e' || t[0] == 'E') && (t[1] == 'n' || t[1] == 'N'))
        || ((t[0] == 'z' || t[0] == 'Z') && (t[1] == 'h' || t[1] == 'H')))
  }

  /** `FromStr`: lower-case the input and compare it with the two codes. */
  function ParseCode(s: string): (r: Option<LanguageCode>)
    ensures r == Some(En) <==> CaseVariantOf(s, "en")
    ensures r == Some(Zh) <==> CaseVariantOf(s, "zh")
    ensures r.Some? <==> IsCodeSpelling(s)
  {
    var l := ToLower(s);
    LowerMatches(s, "en");
    LowerMatches(s, "zh");
    if l == "en" then Some(En)
    else if l == "zh" then Some(Zh)
    else None
  }

  /** Lower-casing gives a lower-case word exactly for its case variants. */
  lemma LowerMatches(s: string, w: string)
    requires forall i :: 0 <= i < |w| ==> 'a' <= w[i] <= 'z'
    ensures ToLower(s) == w <==> CaseVariantOf(s, w)
  {
    if CaseVariantOf(s, w) {
      assert forall i :: 0 <= i < |s| ==> ToLower(s)[i] == w[i];
    }
    if ToLower(s) == w {
      forall i | 0 <= i < |s| ensures s[i] == w[i] || s[i] == UpperAscii(w[i]) {
        assert LowerAscii(s[i]) == w[i];
      }
    }
  }

  /** Parsing the display of a code gives the code back. */
  lemma ParseShow(c: LanguageCode)
    ensures ParseCode(Show(c)) == Some(c)
  {
  }

  /** A successful parse displays as the lower-cased input. */
  lemma ShowParse(s: string)
    requires ParseCode(s).Some?
    ensures Show(ParseCode(s).value) == ToLower(s)
  {
    LowerMatches(s, "en");
    LowerMatches(s, "zh");
  }

  /** The upper-cased display (used in article headers) also parses back. */
  lemma ParseShowUpper(c: LanguageCode)
    ensures ParseCode(ToUpper(Show(c))) == Some(c)
  {
  }

  /** A query the interpreter accepted. */
  datatype ParsedInlineQuery = ParsedInlineQuery(text: string, sourceLang: LanguageCode, targetLang: LanguageCode)

  /** The translation client's input; the same shape as a parsed query. */
  datatype TranslationRequest = TranslationRequest(text: string, sourceLang: LanguageCode, targetLang: LanguageCode)

  datatype TranslationResult = TranslationResult(
    primaryText: string,
    alternateTexts: seq<string>,
    romanizedText: Option<string>,
    providerLatencyMs: nat)

  /** The provider's JSON answer once decoded (long keys and their one-letter aliases alike). */
  datatype ProviderTranslationPayload = ProviderTranslationPayload(
    translation: string,
    alternatives: Option<seq<string>>,
    romanized: Option<string>)
}
