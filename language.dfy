/**
 * Choice of the language in which 1C object names are shown: fixed by a setting,
 * or, when the setting is `Auto`, by whether the browser locale names one of the
 * languages the script associates with Russian-language 1C.
 */
module Language {
  import opened JsStrings

  datatype LanguageVersion = Eng | Ru | Auto

  /** The alternatives of the locale pattern `/ru|be|bg|kk|mk|sr|uk/i`. */
  const LocaleCodes: seq<string> := ["ru", "be", "bg", "kk", "mk", "sr", "uk"]

  /**
   * `locale.match(/ru|be|bg|kk|mk|sr|uk/i)` is truthy: the pattern is unanchored
   * and case-insensitive, and all its letters are ASCII.
   */
  predicate MatchesLocalePattern(locale: string)
  {
    exists code | code in LocaleCodes :: Contains(LowerAsciiString(locale), code)
  }

  /** `code` occurs in `locale` at position `i`, letters compared without regard to ASCII case. */
  ghost predicate OccursIgnoringCase(locale: string, code: string, i: int)
  {
    0 <= i && i + |code| <= |locale| &&
    forall k :: 0 <= k < |code| ==> LowerAscii(locale[i + k]) == code[k]
  }

  /** The language actually used, from the configured one and the browser locale. */
  method ResolveLanguage(configured: LanguageVersion, locale: string) returns (version: LanguageVersion)
    ensures version != Auto
    ensures configured != Auto ==> version == configured
    ensures configured == Auto ==> (version == Ru <==> MatchesLocalePattern(locale))
  {
    version := configured;
    if version == Auto {
      if MatchesLocalePattern(locale) {
        version := Ru;
      } else {
        version := Eng;
      }
    }
  }

  /** The locale test holds exactly when some code occurs in the locale, ignoring ASCII case. */
  lemma LocalePatternIffCodeOccurs(locale: string)
    ensures MatchesLocalePattern(locale) <==>
      exists code, i :: code in LocaleCodes && OccursIgnoringCase(locale, code, i)
  {
    var lower := LowerAsciiString(locale);
    forall code, i
      ensures OccursAt(lower, code, i) <==> OccursIgnoringCase(locale, code, i)
    {
      if OccursIgnoringCase(locale, code, i) {
        assert lower[i..i + |code|] == code;
      }
    }
    forall code
      ensures Contains(lower, code) <==> exists i :: OccursAt(lower, code, i)
    {
      ContainsIffOccurs(lower, code);
    }
  }

  /** A Russian locale, in any letter case. */
  lemma RussianLocaleResolvesToRu()
    ensures MatchesLocalePattern("ru-RU") && MatchesLocalePattern("RU")
  {
    LocalePatternIffCodeOccurs("ru-RU");
    assert OccursIgnoringCase("ru-RU", "ru", 0);
    LocalePatternIffCodeOccurs("RU");
    assert OccursIgnoringCase("RU", "ru", 0);
  }

  /** The pattern is unanchored: a region subtag such as Belgium's "BE" also selects Russian. */
  lemma RegionSubtagAlsoMatches()
    ensures MatchesLocalePattern("nl-BE")
  {
    LocalePatternIffCodeOccurs("nl-BE");
    assert OccursIgnoringCase("nl-BE", "be", 3);
  }

  /** `en-US` resolves to English. */
  lemma EnglishLocaleDoesNotMatch()
    ensures !MatchesLocalePattern("en-US")
  {
    var lower := LowerAsciiString("en-US");
    assert lower == "en-us";
    forall code | code in LocaleCodes
      ensures !Contains(lower, code)
    {
      NoAdjacentPairNotContained(lower, code);
    }
  }
}
