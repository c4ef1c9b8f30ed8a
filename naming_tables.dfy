/**
 * The three constant tables of the naming script: metadata category directories
 * with their Russian 1C names, path segments hidden from the presentation, and
 * module file names renamed in Russian mode.
 *
 * The translator takes the tables as a `Tables` value so that its proofs hold
 * for any tables; `ScriptTables` is the one value the script uses, and
 * `ScriptTablesWellFormed` states the fact about it that one property needs.
 */
module NamingTables {

  datatype Tables = Tables(
    baseClasses: map<string, string>,  // `mapFileBaseClass`
    ignored: seq<string>,              // `ignoredPathFile`
    renames: map<string, string>)      // `replacePathFile`

  /** Directory name of a metadata category to its 1C collection name. */
  function BaseClasses(): map<string, string>
  {
    map[
      "AccountingRegisters" := "РегистрыБухгалтерии",
      "AccumulationRegisters" := "РегистрыНакопления",
      "BusinessProcesses" := "БизнесПроцессы",
      "Catalogs" := "Справочники",
      "ChartsOfAccounts" := "ПланыСчетов",
      "ChartsOfCalculationTypes" := "ПланыВидовРасчета",
      "ChartsOfCharacteristicTypes" := "ПланыВидовХарактеристик",
      "CommonCommands" := "ОбщиеКоманды",
      "CommonForms" := "ОбщиеФормы",
      "CommonModules" := "ОбщиеМодули",
      "Configuration" := "Конфигурация",
      "Constants" := "Константы",
      "DataProcessors" := "Обработки",
      "DocumentJournals" := "ЖурналыДокументов",
      "Documents" := "Документы",
      "Enums" := "Перечисления",
      "ExchangePlans" := "ПланыОбмена",
      "ExternalDataSources" := "ВнешниеИсточникиДанных",
      "HTTPServices" := "HTTPСервисы",
      "InformationRegisters" := "РегистрыСведений",
      "Reports" := "Отчеты",
      "SettingsStorages" := "ХранилищаНастроек",
      "Tasks" := "Задачи",
      "WebServices" := "ВебСервисы",
      "ExternalDataProcessors" := "ВнешниеОбработки"
    ]
  }

  /** Path segments dropped from a presentation. */
  function IgnoredPathFile(): seq<string>
  {
    [
      "CommandModule.bsl",
      "Forms",
      "Form",
      "Ext",
      "Module.bsl",
      "Commands"
    ]
  }

  /** Module file names shown under their Russian 1C names. */
  function ReplacePathFile(): map<string, string>
  {
    map[
      "ManagerModule.bsl" := "МодульМенеджера",
      "ObjectModule.bsl" := "МодульОбъекта",
      "ManagedApplicationModule.bsl" := "МодульПриложения"
    ]
  }

  /** The tables the script uses. */
  function ScriptTables(): Tables
  {
    Tables(BaseClasses(), IgnoredPathFile(), ReplacePathFile())
  }

  /** No category directory name and no category label is empty. */
  ghost predicate WellFormed(t: Tables)
  {
    "" !in t.baseClasses.Keys && "" !in t.baseClasses.Values
  }

  lemma ScriptTablesWellFormed()
    ensures WellFormed(ScriptTables())
  {
  }
}
