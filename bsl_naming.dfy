/**
 * The translation of a SonarQube file path such as
 * `CommonModules/MyModule/Ext/ManagerModule.bsl` into the name of the 1C object
 * it belongs to, such as `ОбщиеМодули.MyModule.МодульМенеджера`.
 *
 * `Presentation` defines the result from the path's segments; the method
 * `PresentationFileOneS` computes it the way the script does, one segment at a
 * time, and is proved to agree with it. The lemmas state what the result is
 * made of.
 */
module BslNaming {
  import opened Wrappers
  import opened JsStrings
  import opened NamingTables
  import opened Language

  /** Position of the first segment that is a category directory, if there is one. */
  function FirstCategoryIndex(t: Tables, parts: seq<string>): (r: Option<nat>)
    ensures r.Some? ==> r.value < |parts| && parts[r.value] in t.baseClasses
  {
    if |parts| == 0 then None
    else if parts[0] in t.baseClasses then Some(0)
    else match FirstCategoryIndex(t, parts[1..])
      case None => None
      case Some(i) => Some(i + 1)
  }

  /** The position found is the first category segment, and there is none when no segment is a category. */
  lemma {:induction false} FirstCategoryIndexIsFirst(t: Tables, parts: seq<string>)
    ensures var r := FirstCategoryIndex(t, parts);
      (r.Some? ==> forall j :: 0 <= j < r.value ==> parts[j] !in t.baseClasses) &&
      (r.None? <==> forall j :: 0 <= j < |parts| ==> parts[j] !in t.baseClasses)
    decreases |parts|
  {
    if |parts| > 0 && parts[0] !in t.baseClasses {
      FirstCategoryIndexIsFirst(t, parts[1..]);
      assert forall j :: 1 <= j < |parts| ==> parts[j] == parts[1..][j - 1];
    }
  }

  /** How a category directory is shown: its 1C name in Russian mode, the directory name otherwise. */
  function CategoryLabel(t: Tables, version: LanguageVersion, segment: string): string
    requires segment in t.baseClasses
  {
    if version == Ru then t.baseClasses[segment] else segment
  }

  /** How a kept segment is shown: renamed only in Russian mode and only when it is a known module file. */
  function RenameSegment(t: Tables, version: LanguageVersion, segment: string): string
  {
    if version == Ru && segment in t.renames then t.renames[segment] else segment
  }

  /** The segments not in the ignored list, in their original order. */
  function WithoutIgnored(t: Tables, segments: seq<string>): (r: seq<string>)
    ensures |r| <= |segments|
  {
    if |segments| == 0 then []
    else (if segments[0] in t.ignored then [] else [segments[0]]) + WithoutIgnored(t, segments[1..])
  }

  /** Each segment as it is shown. */
  function Renamed(t: Tables, version: LanguageVersion, segments: seq<string>): (r: seq<string>)
    ensures |r| == |segments|
  {
    if |segments| == 0 then [] else [RenameSegment(t, version, segments[0])] + Renamed(t, version, segments[1..])
  }

  /**
   * The presentation of a file path: "" for an absent path; the path itself when
   * none of its `/`-segments is a category directory; otherwise the label of the
   * first category segment followed by the shown form of every later segment that
   * is not ignored, joined with `.`.
   */
  function Presentation(t: Tables, version: LanguageVersion, fullPath: Option<string>): string
  {
    match fullPath
    case None => ""
    case Some(path) =>
      var parts := Split(path, '/');
      match FirstCategoryIndex(t, parts)
      case None => path
      case Some(i) =>
        Join([CategoryLabel(t, version, parts[i])] + Renamed(t, version, WithoutIgnored(t, parts[i + 1..])), '.')
  }

  /**
   * `presentationFileOneS`: one pass over the segments. Until a category is
   * found each segment is looked up in the category table; after it, every
   * segment not ignored is pushed, renamed in Russian mode when the rename
   * table has it. The category is put in front and all is joined with `.`.
   */
  method PresentationFileOneS(t: Tables, version: LanguageVersion, fullPath: Option<string>) returns (r: string)
    ensures r == Presentation(t, version, fullPath)
  {
    if fullPath.None? {
      return "";
    }
    var path := fullPath.value;
    var partsPath := Split(path, '/');
    var baseClass: Option<string> := None;
    var isRuName := version == Ru;
    var newPath: seq<string> := [];
    ghost var hit: nat := 0;
    for k := 0 to |partsPath|
      invariant baseClass.None? <==> ScanCategory(t, partsPath, k).None?
      invariant baseClass.None? ==> newPath == []
      invariant baseClass.Some? ==> ScanCategory(t, partsPath, k) == Some(hit)
      invariant baseClass.Some? ==> baseClass.value == CategoryLabel(t, version, partsPath[hit])
      invariant baseClass.Some? ==> newPath == ScanKept(t, version, partsPath, hit + 1, k)
    {
      var partPath := partsPath[k];
      if baseClass.None? {
        baseClass := if partPath in t.baseClasses then Some(t.baseClasses[partPath]) else None;
        if !isRuName && baseClass.Some? {
          baseClass := Some(partPath);
        }
        hit := k;
      } else if partPath !in t.ignored {
        var thisPart: Option<string> := None;
        if isRuName {
          thisPart := if partPath in t.renames then Some(t.renames[partPath]) else None;
        }
        if thisPart.None? {
          thisPart := Some(partPath);
        }
        newPath := newPath + [thisPart.value];
      }
    }
    if baseClass.None? {
      ScanFindsNoCategory(t, version, path);
      return path;
    }
    ScanFindsCategory(t, version, path, hit);
    newPath := [baseClass.value] + newPath;
    r := Join(newPath, '.');
  }

  /**
   * The category search as the loop performs it: the first `k` segments are
   * looked at in order and the first hit is kept.
   */
  ghost function ScanCategory(t: Tables, parts: seq<string>, k: nat): (r: Option<nat>)
    requires k <= |parts|
    ensures r.Some? ==> r.value < k && parts[r.value] in t.baseClasses
  {
    if k == 0 then None
    else match ScanCategory(t, parts, k - 1)
      case Some(i) => Some(i)
      case None => if parts[k - 1] in t.baseClasses then Some(k - 1) else None
  }

  /** The segments pushed by the loop after the category, from position `from` up to `k`. */
  ghost function ScanKept(t: Tables, version: LanguageVersion, parts: seq<string>, from: nat, k: nat): seq<string>
    requires from <= k <= |parts|
    decreases k - from
  {
    if k == from then []
    else
      var shown := if parts[k - 1] in t.ignored then [] else [RenameSegment(t, version, parts[k - 1])];
      ScanKept(t, version, parts, from, k - 1) + shown
  }

  /** When the loop's scan finds no category, the presentation is the path itself. */
  lemma ScanFindsNoCategory(t: Tables, version: LanguageVersion, path: string)
    requires ScanCategory(t, Split(path, '/'), |Split(path, '/')|).None?
    ensures Presentation(t, version, Some(path)) == path
  {
    ScanCategoryFindsFirst(t, Split(path, '/'));
  }

  /**
   * When the loop's scan finds a category at `i`, the presentation is its label
   * followed by what the loop pushed after it.
   */
  lemma ScanFindsCategory(t: Tables, version: LanguageVersion, path: string, i: nat)
    requires ScanCategory(t, Split(path, '/'), |Split(path, '/')|) == Some(i)
    ensures var parts := Split(path, '/');
      i < |parts| && parts[i] in t.baseClasses &&
      Presentation(t, version, Some(path)) ==
        Join([CategoryLabel(t, version, parts[i])] + ScanKept(t, version, parts, i + 1, |parts|), '.')
  {
    var parts := Split(path, '/');
    ScanCategoryFindsFirst(t, parts);
    ScanKeptShowsTail(t, version, parts, i + 1);
  }

  /** Scanning all segments finds the first category segment. */
  lemma ScanCategoryFindsFirst(t: Tables, parts: seq<string>)
    ensures ScanCategory(t, parts, |parts|) == FirstCategoryIndex(t, parts)
  {
    ScanCategoryPrefix(t, parts, |parts|);
    assert parts[..|parts|] == parts;
  }

  lemma {:induction false} ScanCategoryPrefix(t: Tables, parts: seq<string>, k: nat)
    requires k <= |parts|
    ensures ScanCategory(t, parts, k) == FirstCategoryIndex(t, parts[..k])
  {
    if k > 0 {
      ScanCategoryPrefix(t, parts, k - 1);
      FirstCategoryIndexIsFirst(t, parts[..k - 1]);
      FirstCategoryIndexIsFirst(t, parts[..k]);
    }
  }

  /** What the loop pushes after the category is the shown form of the later segments that are not ignored. */
  lemma ScanKeptShowsTail(t: Tables, version: LanguageVersion, parts: seq<string>, from: nat)
    requires from <= |parts|
    ensures ScanKept(t, version, parts, from, |parts|) == Renamed(t, version, WithoutIgnored(t, parts[from..]))
  {
    ScanKeptSlice(t, version, parts, from, |parts|);
    assert parts[from..|parts|] == parts[from..];
  }

  lemma {:induction false} ScanKeptSlice(t: Tables, version: LanguageVersion, parts: seq<string>, from: nat, k: nat)
    requires from <= k <= |parts|
    ensures ScanKept(t, version, parts, from, k) == Renamed(t, version, WithoutIgnored(t, parts[from..k]))
    decreases k - from
  {
    if k == from {
      assert parts[from..k] == [];
    } else {
      ScanKeptSlice(t, version, parts, from, k - 1);
      KeptExtend(t, version, parts, from, k - 1);
    }
  }

  /** Looking at one more segment after the category appends its shown form, unless it is ignored. */
  lemma KeptExtend(t: Tables, version: LanguageVersion, parts: seq<string>, from: nat, k: nat)
    requires from <= k < |parts|
    ensures Renamed(t, version, WithoutIgnored(t, parts[from..k + 1])) ==
      Renamed(t, version, WithoutIgnored(t, parts[from..k])) +
      (if parts[k] in t.ignored then [] else [RenameSegment(t, version, parts[k])])
  {
    assert parts[from..k + 1] == parts[from..k] + [parts[k]];
    WithoutIgnoredAppend(t, parts[from..k], [parts[k]]);
    RenamedAppend(t, version, WithoutIgnored(t, parts[from..k]), WithoutIgnored(t, [parts[k]]));
  }

  /** Dropping ignored segments keeps the order: it distributes over concatenation. */
  lemma {:induction false} WithoutIgnoredAppend(t: Tables, a: seq<string>, b: seq<string>)
    ensures WithoutIgnored(t, a + b) == WithoutIgnored(t, a) + WithoutIgnored(t, b)
    decreases |a|
  {
    if |a| > 0 {
      assert (a + b)[1..] == a[1..] + b;
      WithoutIgnoredAppend(t, a[1..], b);
    } else {
      assert a + b == b;
    }
  }

  /** Renaming works segment by segment: it distributes over concatenation. */
  lemma {:induction false} RenamedAppend(t: Tables, version: LanguageVersion, a: seq<string>, b: seq<string>)
    ensures Renamed(t, version, a + b) == Renamed(t, version, a) + Renamed(t, version, b)
    decreases |a|
  {
    if |a| > 0 {
      assert (a + b)[1..] == a[1..] + b;
      RenamedAppend(t, version, a[1..], b);
    } else {
      assert a + b == b;
    }
  }

  /** Renaming is segment by segment: each shown segment is the renaming of the segment at its position. */
  lemma {:induction false} RenamedAt(t: Tables, version: LanguageVersion, segments: seq<string>, k: nat)
    requires k < |segments|
    ensures Renamed(t, version, segments)[k] == RenameSegment(t, version, segments[k])
    decreases k
  {
    if k > 0 {
      RenamedAt(t, version, segments[1..], k - 1);
    }
  }

  /** In English mode nothing is renamed. */
  lemma {:induction false} EnglishRenamesNothing(t: Tables, segments: seq<string>)
    ensures Renamed(t, Eng, segments) == segments
    decreases |segments|
  {
    if |segments| > 0 {
      EnglishRenamesNothing(t, segments[1..]);
      assert [segments[0]] + segments[1..] == segments;
    }
  }

  /** Every segment that is not ignored is kept exactly as often as it occurs; ignored ones never are. */
  lemma {:induction false} WithoutIgnoredCount(t: Tables, segments: seq<string>, x: string)
    ensures multiset(WithoutIgnored(t, segments))[x] == if x in t.ignored then 0 else multiset(segments)[x]
    decreases |segments|
  {
    if |segments| > 0 {
      WithoutIgnoredCount(t, segments[1..], x);
      assert segments == [segments[0]] + segments[1..];
      assert multiset(segments) == multiset([segments[0]]) + multiset(segments[1..]);
    }
  }

  /** A path none of whose segments is a category directory is shown unchanged, in either language. */
  lemma PathWithoutCategoryUnchanged(t: Tables, version: LanguageVersion, path: string)
    requires forall k :: 0 <= k < |Split(path, '/')| ==> Split(path, '/')[k] !in t.baseClasses
    ensures Presentation(t, version, Some(path)) == path
  {
  }

  /**
   * The shape of every translated path. For a path made of segments `prefix`,
   * then a category directory, then `tail`, where `prefix` holds no category
   * directory: the segments of `prefix` never reach the result, the category is
   * shown by its label, and `tail` is shown by dropping its ignored segments and
   * renaming the rest, in order. Segments of `tail` that name categories are
   * treated like any other.
   */
  lemma CategoryPathPresentation(t: Tables, version: LanguageVersion, prefix: seq<string>, category: string, tail: seq<string>)
    requires forall k :: 0 <= k < |prefix| ==> '/' !in prefix[k] && prefix[k] !in t.baseClasses
    requires '/' !in category && category in t.baseClasses
    requires forall k :: 0 <= k < |tail| ==> '/' !in tail[k]
    ensures Presentation(t, version, Some(Join(prefix + [category] + tail, '/'))) ==
      Join([CategoryLabel(t, version, category)] + Renamed(t, version, WithoutIgnored(t, tail)), '.')
  {
    var parts := prefix + [category] + tail;
    assert forall k :: 0 <= k < |parts| ==> '/' !in parts[k] by {
      forall k | 0 <= k < |parts|
        ensures '/' !in parts[k]
      {
        if k < |prefix| {
          assert parts[k] == prefix[k];
        } else if k > |prefix| {
          assert parts[k] == tail[k - |prefix| - 1];
        }
      }
    }
    SplitJoin(parts, '/');
    assert parts[|prefix|] == category;
    assert forall j :: 0 <= j < |prefix| ==> parts[j] == prefix[j];
    FirstCategoryIndexIsFirst(t, parts);
    assert FirstCategoryIndex(t, parts) == Some(|prefix|);
    assert parts[|prefix| + 1..] == tail;
  }

  /**
   * In English mode the result is the category directory name followed by the
   * later segments that are not ignored, each verbatim.
   */
  lemma EnglishPresentation(t: Tables, prefix: seq<string>, category: string, tail: seq<string>)
    requires forall k :: 0 <= k < |prefix| ==> '/' !in prefix[k] && prefix[k] !in t.baseClasses
    requires '/' !in category && category in t.baseClasses
    requires forall k :: 0 <= k < |tail| ==> '/' !in tail[k]
    ensures Presentation(t, Eng, Some(Join(prefix + [category] + tail, '/'))) ==
      Join([category] + WithoutIgnored(t, tail), '.')
  {
    CategoryPathPresentation(t, Eng, prefix, category, tail);
    EnglishRenamesNothing(t, WithoutIgnored(t, tail));
  }

  /**
   * The result is empty exactly when the path is absent or empty, so the script
   * leaves an element's text alone in just those cases.
   */
  lemma PresentationEmptyIff(t: Tables, version: LanguageVersion, fullPath: Option<string>)
    requires WellFormed(t)
    ensures Presentation(t, version, fullPath) == "" <==> fullPath == None || fullPath == Some("")
  {
    if fullPath.Some? {
      var parts := Split(fullPath.value, '/');
      match FirstCategoryIndex(t, parts)
      case None =>
      case Some(i) =>
        var shown := [CategoryLabel(t, version, parts[i])] + Renamed(t, version, WithoutIgnored(t, parts[i + 1..]));
        JoinStartsWithFirst(shown, '.');
    }
  }

  /**
   * No step hides a category: a category whose label is empty still opens the
   * result, as an empty first field.
   */
  lemma EmptyLabelIsNotHidden()
    ensures Presentation(Tables(map["C" := ""], [], map[]), Ru, Some("C/x")) == ".x"
  {
    var t := Tables(map["C" := ""], [], map[]);
    assert Join([] + ["C"] + ["x"], '/') == "C/x";
    CategoryPathPresentation(t, Ru, [], "C", ["x"]);
    assert WithoutIgnored(t, ["x"]) == ["x"];
    assert Renamed(t, Ru, ["x"]) == ["x"];
  }
}
