/**
 * The page side of the script: which attribute values count as paths of 1C
 * module files, how the issue view finds the path among an element's following
 * siblings, and when an element's text is replaced by the presentation.
 *
 * The document itself is not modelled. A sibling chain is given as the values
 * of the `data-clipboard-text` attribute of the siblings that follow the
 * element, in document order (`None` where the attribute is absent).
 */
module IssueElements {
  import opened Wrappers
  import opened JsStrings
  import opened NamingTables
  import opened Language
  import opened BslNaming

  /** `isBslFile`: the attribute is present and its value ends with `.bsl`. */
  predicate IsBslFile(pathFile: Option<string>)
  {
    pathFile.Some? && EndsWith(pathFile.value, ".bsl")
  }

  /** A value is a module file path exactly when it is some name followed by `.bsl`. */
  lemma IsBslFileIffSuffix(pathFile: Option<string>)
    ensures IsBslFile(pathFile) <==> exists stem :: pathFile == Some(stem + ".bsl")
  {
    if pathFile.Some? {
      EndsWithIffStem(pathFile.value, ".bsl");
    }
  }

  /**
   * `fullPathFileElement_ShowIssue`: the attribute of the first following
   * sibling whose attribute is a module file path; absent when there is none.
   */
  method FindBslSibling(following: seq<Option<string>>) returns (r: Option<string>)
    ensures r.Some? ==> (exists i :: 0 <= i < |following| && following[i] == r &&
                                     IsBslFile(following[i]) && forall j :: 0 <= j < i ==> !IsBslFile(following[j]))
    ensures r.None? <==> forall i :: 0 <= i < |following| ==> !IsBslFile(following[i])
  {
    var k := 0;
    while k < |following|
      invariant 0 <= k <= |following|
      invariant forall j :: 0 <= j < k ==> !IsBslFile(following[j])
    {
      var attribute := following[k];
      if IsBslFile(attribute) {
        return attribute;
      }
      k := k + 1;
    }
    return None;
  }

  /** The guard `presentation > ""` before an element's text is replaced. */
  predicate ShouldWrite(presentation: string)
  {
    JsGreaterThan(presentation, "")
  }

  /**
   * With well-formed tables, an element's text is replaced exactly when a
   * non-empty path was found for it.
   */
  lemma ShouldWriteIffPathPresent(t: Tables, version: LanguageVersion, fullPath: Option<string>)
    requires WellFormed(t)
    ensures ShouldWrite(Presentation(t, version, fullPath)) <==> fullPath.Some? && fullPath.value != ""
  {
    PresentationEmptyIff(t, version, fullPath);
    GreaterThanEmptyIffNonEmpty(Presentation(t, version, fullPath));
  }

  /** With the script's own tables, the text is replaced exactly when a non-empty path was found. */
  lemma ScriptWritesIffPathPresent(version: LanguageVersion, fullPath: Option<string>)
    ensures ShouldWrite(Presentation(ScriptTables(), version, fullPath)) <==>
      fullPath.Some? && fullPath.value != ""
  {
    ScriptTablesWellFormed();
    ShouldWriteIffPathPresent(ScriptTables(), version, fullPath);
  }

  /** A page element whose text the script may replace. */
  class Element {
    var textContent: string

    constructor(text: string)
      ensures textContent == text
    {
      textContent := text;
    }

    /**
     * The body of `renameBslFiles` for one matched element: the presentation
     * of the path found for it replaces the element's text when it is
     * non-empty; otherwise the text stays as it was.
     */
    method ShowPresentation(version: LanguageVersion, fullPath: Option<string>)
      modifies this
      ensures var presentation := Presentation(ScriptTables(), version, fullPath);
        textContent == if ShouldWrite(presentation) then presentation else old(textContent)
    {
      var presentation := PresentationFileOneS(ScriptTables(), version, fullPath);
      if ShouldWrite(presentation) {
        textContent := presentation;
      }
    }
  }
}
