/**
 * Paths from the 1C configuration export layout as SonarQube shows them, and
 * their presentations with the script's own tables. Paths and results are
 * written as their segments joined with `/` and `.`.
 */
module NamingExamples {
  import opened Wrappers
  import opened JsStrings
  import opened NamingTables
  import opened Language
  import opened BslNaming

  /** `CommonModules` is a category directory, shown as `ОбщиеМодули` in Russian mode. */
  lemma CommonModulesLabel()
    ensures "CommonModules" in ScriptTables().baseClasses
    ensures CategoryLabel(ScriptTables(), Ru, "CommonModules") == "ОбщиеМодули"
  {
  }

  /** `Ext` is hidden; a manager module file is renamed in Russian mode and kept as it is in English mode. */
  lemma ManagerModuleTail()
    ensures WithoutIgnored(ScriptTables(), ["MyModule", "Ext", "ManagerModule.bsl"]) == ["MyModule", "ManagerModule.bsl"]
    ensures Renamed(ScriptTables(), Ru, ["MyModule", "ManagerModule.bsl"]) == ["MyModule", "МодульМенеджера"]
  {
    var t := ScriptTables();
    assert "MyModule" !in t.ignored && "ManagerModule.bsl" !in t.ignored;
    assert RenameSegment(t, Ru, "MyModule") == "MyModule";
  }

  /** A common module's manager module, in Russian mode: `Ext` is hidden and the module file renamed. */
  lemma CommonModuleInRussian()
    ensures Presentation(ScriptTables(), Ru, Some(Join(["CommonModules", "MyModule", "Ext", "ManagerModule.bsl"], '/'))) ==
      Join(["ОбщиеМодули", "MyModule", "МодульМенеджера"], '.')
  {
    var tail := ["MyModule", "Ext", "ManagerModule.bsl"];
    assert [] + ["CommonModules"] + tail == ["CommonModules", "MyModule", "Ext", "ManagerModule.bsl"];
    CommonModulesLabel();
    CategoryPathPresentation(ScriptTables(), Ru, [], "CommonModules", tail);
    ManagerModuleTail();
  }

  /** The same path in English mode: the directory names are kept, `Ext` is still hidden. */
  lemma CommonModuleInEnglish()
    ensures Presentation(ScriptTables(), Eng, Some(Join(["CommonModules", "MyModule", "Ext", "ManagerModule.bsl"], '/'))) ==
      Join(["CommonModules", "MyModule", "ManagerModule.bsl"], '.')
  {
    var tail := ["MyModule", "Ext", "ManagerModule.bsl"];
    assert [] + ["CommonModules"] + tail == ["CommonModules", "MyModule", "Ext", "ManagerModule.bsl"];
    CommonModulesLabel();
    EnglishPresentation(ScriptTables(), [], "CommonModules", tail);
    ManagerModuleTail();
  }

  /** `Catalogs` is a category directory, shown as `Справочники` in Russian mode. */
  lemma CatalogsLabel()
    ensures "Catalogs" in ScriptTables().baseClasses
    ensures CategoryLabel(ScriptTables(), Ru, "Catalogs") == "Справочники"
  {
  }

  /** In a form's path `Forms`, `Ext`, `Form` and `Module.bsl` are hidden, and nothing else is renamed. */
  lemma FormTail()
    ensures WithoutIgnored(ScriptTables(), ["Products", "Forms", "ListForm", "Ext", "Form", "Module.bsl"]) == ["Products", "ListForm"]
    ensures Renamed(ScriptTables(), Ru, ["Products", "ListForm"]) == ["Products", "ListForm"]
  {
    var front, back := ["Products", "Forms", "ListForm"], ["Ext", "Form", "Module.bsl"];
    FormObjectPart();
    FormModulePart();
    WithoutIgnoredAppend(ScriptTables(), front, back);
    assert front + back == ["Products", "Forms", "ListForm", "Ext", "Form", "Module.bsl"];
    FormNamesKept();
  }

  lemma FormNamesKept()
    ensures Renamed(ScriptTables(), Ru, ["Products", "ListForm"]) == ["Products", "ListForm"]
  {
    var t := ScriptTables();
    assert "Products" !in t.renames && "ListForm" !in t.renames;
  }

  lemma FormObjectPart()
    ensures WithoutIgnored(ScriptTables(), ["Products", "Forms", "ListForm"]) == ["Products", "ListForm"]
  {
    var t := ScriptTables();
    assert "Products" !in t.ignored && "ListForm" !in t.ignored;
  }

  lemma FormModulePart()
    ensures WithoutIgnored(ScriptTables(), ["Ext", "Form", "Module.bsl"]) == []
  {
  }

  /** A catalog form's module, in Russian mode: only the object and the form name remain. */
  lemma CatalogFormInRussian()
    ensures Presentation(ScriptTables(), Ru,
              Some(Join(["Catalogs", "Products", "Forms", "ListForm", "Ext", "Form", "Module.bsl"], '/'))) ==
      Join(["Справочники", "Products", "ListForm"], '.')
  {
    var tail := ["Products", "Forms", "ListForm", "Ext", "Form", "Module.bsl"];
    assert [] + ["Catalogs"] + tail == ["Catalogs", "Products", "Forms", "ListForm", "Ext", "Form", "Module.bsl"];
    CatalogsLabel();
    CategoryPathPresentation(ScriptTables(), Ru, [], "Catalogs", tail);
    FormTail();
  }

  /** Neither segment of `randomfolder/x.bsl` is a category directory. */
  lemma NoCategoryInPlainFolder()
    ensures "randomfolder" !in ScriptTables().baseClasses && "x.bsl" !in ScriptTables().baseClasses
  {
  }

  /** A path with no category directory is shown as it is. */
  lemma PlainFolderUnchanged()
    ensures Presentation(ScriptTables(), Ru, Some(Join(["randomfolder", "x.bsl"], '/'))) ==
      Join(["randomfolder", "x.bsl"], '/')
  {
    var parts := ["randomfolder", "x.bsl"];
    SplitJoin(parts, '/');
    NoCategoryInPlainFolder();
    PathWithoutCategoryUnchanged(ScriptTables(), Ru, Join(parts, '/'));
  }
}
