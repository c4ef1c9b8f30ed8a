# SonarBSL file naming, modelled in Dafny

The SonarBSL user script rewrites SonarQube pages for 1C:Enterprise projects.
Where the page shows the path of a `.bsl` module file, such as
`CommonModules/MyModule/Ext/ManagerModule.bsl`, the script replaces the text
with the name of the 1C object the module belongs to. In Russian mode that is
`ОбщиеМодули.MyModule.МодульМенеджера`; in English mode it is
`CommonModules.MyModule.ManagerModule.bsl`.

This project models the script's core:

- `presentationFileOneS`, the translation of a path into a presentation.
  `BslNaming.Presentation` defines the result from the path's `/`-segments.
  `BslNaming.PresentationFileOneS` is the script's single pass over the
  segments, written as a loop. It is proved to return `Presentation` for every
  path and for any tables.
- The three constant tables: category directories with their Russian
  collection names, hidden segments, and renamed module files
  (`NamingTables`).
- The choice of language from a configured value and the browser locale
  (`Language`).
- `isBslFile`; the issue view's search for the path among an element's
  following siblings; and the `presentation > ""` guard before an element's
  text is replaced (`IssueElements`).
- The JavaScript string built-ins these rely on, over `seq<char>`
  (`JsStrings`): `split`, `join`, `endsWith`, the case-insensitive locale
  match, and `>` on strings.
- Worked examples with the script's own tables (`NamingExamples`).

A JavaScript value that may be `undefined` or `null` is an `Option`.
`Presentation` takes its tables as a `Tables` value, so its lemmas hold for
any tables. `ScriptTables()` is the value the script uses.

Three behaviours one might expect of such a translator are not in the code,
and the model does not have them either:

- No step hides a recognised category. Its label is always put in front of
  the kept segments, even if it were empty, in which case the result would
  start with `.` (`EmptyLabelIsNotHidden`). Every label in the script's table
  is non-empty.
- In English mode a trailing `.bsl` is kept. Nothing strips it, so
  `ManagerModule.bsl` stays as written.
- Before an element's text is replaced, nothing checks whether the element has
  child elements. Assigning `textContent` replaces whatever the element held.

## Model

| member | source | states |
|---|---|---|
| BslNaming.PresentationFileOneS | BslNamingScript.js:160-201 | The loop returns exactly `Presentation(t, version, fullPath)`, for every path, language and set of tables. |
| BslNaming.Presentation | BslNamingScript.js:160-201 | Defines the presentation: "" for an absent path; the path itself when no segment is a category; otherwise the first category's label followed by the renamed, non-ignored later segments, joined with `.`. |
| BslNaming.CategoryLabel | BslNamingScript.js:173-176 | Defines how the category is shown: its table value in Russian mode, the directory name otherwise. |
| BslNaming.RenameSegment | BslNamingScript.js:179-187 | Defines how a kept segment is shown: its rename-table value in Russian mode when it has one, the segment itself otherwise. |
| BslNaming.EmptyLabelIsNotHidden | BslNamingScript.js:194-198 | A category with an empty label is not dropped: `C/x` with label "" for `C` gives `.x`. |
| NamingTables.BaseClasses | BslNamingScript.js:53-79 | Defines the 25 category directories and their Russian collection names, as in the script. |
| NamingTables.IgnoredPathFile | BslNamingScript.js:82-89 | Defines the six hidden segments, as in the script. |
| NamingTables.ReplacePathFile | BslNamingScript.js:92-96 | Defines the three renamed module files and their Russian names, as in the script. |
| Language.LanguageVersion | BslNamingScript.js:19-23 | Defines the three language settings: English, Russian, and automatic by browser locale. |
| Language.MatchesLocalePattern | BslNamingScript.js:30 | Defines the locale test: one of `ru be bg kk mk sr uk` is a substring of the locale, compared without ASCII case. |
| IssueElements.IsBslFile | BslNamingScript.js:155-157 | Defines `isBslFile`: the attribute is present and ends with `.bsl`. |
| IssueElements.ShouldWrite | BslNamingScript.js:118 | Defines the write guard `presentation > ""`. |
| JsStrings.Join | BslNamingScript.js:198 | Defines `join`: the pieces with the separator between them; no pieces give "". |
| JsStrings.EndsWith | BslNamingScript.js:156 | Defines `endsWith`: the last characters of the string are the suffix. |
| JsStrings.JsGreaterThan | BslNamingScript.js:118 | Defines `>` on strings: lexicographic by character, a proper extension above its prefix. Characters are ordered by code point, where JavaScript orders UTF-16 code units; the two differ only between characters outside the Basic Multilingual Plane and U+E000-U+FFFF, and agree on the one use, `> ""`. |
| JsStrings.Contains | BslNamingScript.js:30 | Defines the unanchored search: the text starts at the first position or is found in the rest. |
| JsStrings.LowerAscii | BslNamingScript.js:30 | Defines the case folding of the `/i` flag for this pattern: `A`-`Z` to `a`-`z`, every other character unchanged. |
| Language.LocaleCodes | BslNamingScript.js:30 | Defines the seven alternatives of the locale pattern, in order. |
| NamingTables.ScriptTables | BslNamingScript.js:53-96 | Defines the tables the script uses: the category table, the hidden segments and the renamed module files. |
| IssueElements.Element | BslNamingScript.js:115-120 | Defines a matched page element by its `textContent`, the only state the script changes. |
| BslNaming.FirstCategoryIndexIsFirst | BslNamingScript.js:170-176 | The category is the first segment found in the category table. There is no category exactly when no segment is in the table. |
| BslNaming.FirstCategoryIndex | BslNamingScript.js:172-176 | A category position found is inside the path, and the segment there is in the category table. |
| BslNaming.ScanCategoryFindsFirst | BslNamingScript.js:172-176 | The loop's test `baseClass == undefined` stops looking after the first hit, so it selects the first category segment. |
| BslNaming.ScanFindsNoCategory | BslNamingScript.js:194-195 | If the loop finds no category, the result is the path itself. |
| BslNaming.ScanFindsCategory | BslNamingScript.js:194-198 | If the loop finds a category, the result is its label, then what the loop pushed, joined with `.`. |
| BslNaming.ScanKeptShowsTail | BslNamingScript.js:177-191 | After the category, the loop pushes the later segments that are not ignored, each in its shown form, in order. |
| BslNaming.KeptExtend | BslNamingScript.js:177-189 | Looking at one more segment appends its shown form, unless the segment is ignored. |
| BslNaming.WithoutIgnored | BslNamingScript.js:177 | Dropping ignored segments never makes the list longer. |
| BslNaming.WithoutIgnoredAppend | BslNamingScript.js:177 | Dropping ignored segments keeps their order: it distributes over concatenation. |
| BslNaming.WithoutIgnoredCount | BslNamingScript.js:177 | Each segment that is not ignored is kept as often as it occurs. An ignored segment is never kept. |
| BslNaming.Renamed | BslNamingScript.js:179-189 | Renaming keeps one shown segment per segment. |
| BslNaming.RenamedAppend | BslNamingScript.js:179-189 | Renaming works segment by segment: it distributes over concatenation. |
| BslNaming.RenamedAt | BslNamingScript.js:179-187 | Each shown segment is the rename-table value of the segment at its position, in Russian mode, or else the segment itself. |
| BslNaming.EnglishRenamesNothing | BslNamingScript.js:168-183 | Without Russian mode the rename table is never consulted. |
| BslNaming.PathWithoutCategoryUnchanged | BslNamingScript.js:194-195 | A path with no category segment is shown unchanged, in either language. |
| BslNaming.CategoryPathPresentation | BslNamingScript.js:166-198 | For a path made of a prefix with no category, a category, then a tail: the prefix is not shown; the category shows as its label; the tail shows with ignored segments dropped and the rest renamed, in order. |
| BslNaming.EnglishPresentation | BslNamingScript.js:174-187 | In English mode the result is the category's directory name followed by the non-ignored later segments, verbatim. |
| BslNaming.PresentationEmptyIff | BslNamingScript.js:162-198 | With well-formed tables, the result is empty exactly when the path is absent or empty. |
| NamingTables.ScriptTablesWellFormed | BslNamingScript.js:53-79 | No category directory name and no category label in the script's table is empty. |
| Language.ResolveLanguage | BslNamingScript.js:26-35 | The language used is never `Auto`. A fixed setting is kept. `Auto` gives Russian exactly when the locale matches the pattern. |
| Language.LocalePatternIffCodeOccurs | BslNamingScript.js:30 | The locale matches exactly when one of `ru be bg kk mk sr uk` occurs somewhere in it, ignoring ASCII case. |
| Language.RussianLocaleResolvesToRu | BslNamingScript.js:30-31 | `ru-RU` and `RU` select Russian. |
| Language.RegionSubtagAlsoMatches | BslNamingScript.js:30-31 | The pattern is unanchored, so `nl-BE` selects Russian too. |
| Language.EnglishLocaleDoesNotMatch | BslNamingScript.js:30-33 | `en-US` selects English. |
| JsStrings.Split | BslNamingScript.js:166 | `split` always gives at least one piece. |
| JsStrings.JoinSplit | BslNamingScript.js:166-198 | Joining the pieces of a split gives back the string. |
| JsStrings.SplitJoin | BslNamingScript.js:166-198 | Splitting a join of separator-free pieces gives back the pieces. |
| JsStrings.SplitPiecesHaveNoSeparator | BslNamingScript.js:166 | No piece of a split contains the separator. |
| JsStrings.JoinStartsWithFirst | BslNamingScript.js:198 | A join begins with its first piece. |
| JsStrings.EndsWithIffStem | BslNamingScript.js:156 | `endsWith(suffix)` holds exactly when the string is some stem followed by the suffix. |
| JsStrings.LowerAsciiString | BslNamingScript.js:30 | Case folding keeps the length and folds each character on its own. |
| JsStrings.ContainsIffOccurs | BslNamingScript.js:30 | The left-to-right search succeeds exactly when the text occurs at some position. |
| JsStrings.NoAdjacentPairNotContained | BslNamingScript.js:30 | A two-letter code that never appears as adjacent characters is not found. |
| JsStrings.GreaterThanEmptyIffNonEmpty | BslNamingScript.js:118 | `s > ""` holds exactly for non-empty `s`. |
| IssueElements.IsBslFileIffSuffix | BslNamingScript.js:155-157 | An attribute is a module path exactly when it is present and is some name followed by `.bsl`. |
| IssueElements.FindBslSibling | BslNamingScript.js:138-152 | The result is the attribute of the first following sibling that is a module path. It is absent exactly when no sibling has one. |
| IssueElements.ShouldWriteIffPathPresent | BslNamingScript.js:118-120 | With well-formed tables, the text is replaced exactly when a non-empty path was found. |
| IssueElements.ScriptWritesIffPathPresent | BslNamingScript.js:116-120 | With the script's own tables, the text is replaced exactly when a non-empty path was found. |
| IssueElements.Element.ShowPresentation | BslNamingScript.js:116-120 | The element's text becomes the presentation when that is non-empty. Otherwise the text is left as it was. |
| NamingExamples.CommonModuleInRussian | BslNamingScript.js:160-201 | `CommonModules/MyModule/Ext/ManagerModule.bsl` is shown as `ОбщиеМодули.MyModule.МодульМенеджера` in Russian mode. |
| NamingExamples.CommonModuleInEnglish | BslNamingScript.js:160-201 | The same path is shown as `CommonModules.MyModule.ManagerModule.bsl` in English mode. |
| NamingExamples.CatalogFormInRussian | BslNamingScript.js:160-201 | `Catalogs/Products/Forms/ListForm/Ext/Form/Module.bsl` is shown as `Справочники.Products.ListForm` in Russian mode. |
| NamingExamples.PlainFolderUnchanged | BslNamingScript.js:194-195 | `randomfolder/x.bsl` is shown unchanged. |

## Left out

- The page observer (`MutationObserver`, `processPageChanges`): page events and concurrency are outside a model of values.
- The selector table and `querySelectorAll` in `renameBslFiles`: there is no document model. The model covers what happens to each matched element once its path is known (`Element.ShowPresentation`).
- `fullPathFileElement_ListIssues` and `fullPathFileElement_NavListIssues`: these only read the `title` attribute of an element or its parent. Their result is the `fullPath` parameter.
- `fullPathFileElement_ShowIssue`: the chain of following siblings becomes the sequence of their `data-clipboard-text` values, with `None` for a missing attribute. Element identity and the document tree are not modelled.
- `navigator.language`: it is a parameter of `ResolveLanguage`. The script's fixed setting `Auto` is also a parameter.
- General regular expressions: the locale test `/ru|be|bg|kk|mk|sr|uk/i` is modelled as a substring test after ASCII lower-casing (`MatchesLocalePattern`). That is exact for this pattern, which has only ASCII letters and no anchors.
- The user-script header and the immediately invoked function wrapper: they hold metadata only.
- `WellFormed` requires only that category names and labels are non-empty. A table whose entries contain `/` is not ruled out, because no proved property needs it.
- Unicode handling beyond `seq<char>`: strings are sequences of characters, as JavaScript's UTF-16 strings are for these ASCII and Cyrillic texts.
