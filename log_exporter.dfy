/** BaseLogExporter: an exporter's enabled flag and minimum level gate which logs it exports. */
module LogExporter {
  import opened Wrappers

  /** LogLevel, Debug = 0 up to Fatal = 4. */
  datatype LogLevel = Debug | Information | Warning | Error | Fatal

  /** The enumeration's underlying value, which `>=` compares. */
  function Rank(level: LogLevel): (r: nat)
    ensures r <= 4
    ensures r == 0 <==> level == Debug
    ensures r == 4 <==> level == Fatal
  {
    match level
    case Debug => 0
    case Information => 1
    case Warning => 2
    case Error => 3
    case Fatal => 4
  }

  /** `level >= minimum` on the enumeration. */
  predicate AtLeast(level: LogLevel, minimum: LogLevel) {
    Rank(level) >= Rank(minimum)
  }

  /** A log; its timestamp is not modelled. */
  datatype Log = Log(callingAssembly: string, level: LogLevel, message: string)

  /** Whether an exporter in the given state hands a log of the given level to ExportLog. */
  predicate Exports(isEnabled: bool, minLogLevel: LogLevel, level: LogLevel) {
    isEnabled && AtLeast(level, minLogLevel)
  }

  class BaseLogExporter {
    var isEnabled: bool
    var minLogLevel: LogLevel
    var name: Option<string>

    /** A new exporter is enabled, accepts every level from Debug up, and has no name. */
    constructor ()
      ensures isEnabled && minLogLevel == Debug && name == None
    {
      isEnabled := true;
      minLogLevel := Debug;
      name := None;
    }

    /** The IsEnabled setter. */
    method SetIsEnabled(value: bool)
      modifies this
      ensures isEnabled == value && minLogLevel == old(minLogLevel) && name == old(name)
    {
      isEnabled := value;
    }

    /** The MinLogLevel setter. */
    method SetMinLogLevel(value: LogLevel)
      modifies this
      ensures minLogLevel == value && isEnabled == old(isEnabled) && name == old(name)
    {
      minLogLevel := value;
    }

    /** The Name setter. */
    method SetName(value: Option<string>)
      modifies this
      ensures name == value && isEnabled == old(isEnabled) && minLogLevel == old(minLogLevel)
    {
      name := value;
    }

    /** Copy: a memberwise clone, a new exporter in the same state. */
    method Copy() returns (c: BaseLogExporter)
      ensures fresh(c)
      ensures c.isEnabled == isEnabled && c.minLogLevel == minLogLevel && c.name == name
    {
      c := new BaseLogExporter();
      c.isEnabled := isEnabled;
      c.minLogLevel := minLogLevel;
      c.name := name;
    }

    /**
     * ProcessLog: the log that is passed to ExportLog, if any. It is passed exactly once
     * when the exporter is enabled and the level reaches the minimum, and not at all otherwise.
     */
    method ProcessLog(logToExport: Log) returns (exported: Option<Log>)
      ensures exported.Some? <==> Exports(isEnabled, minLogLevel, logToExport.level)
      ensures exported.Some? ==> exported.value == logToExport
    {
      if isEnabled && Rank(logToExport.level) >= Rank(minLogLevel) {
        exported := Some(logToExport);
      } else {
        exported := None;
      }
    }
  }

  /** The level order is total: of two levels, one is at least the other. */
  lemma LevelOrderTotal(a: LogLevel, b: LogLevel)
    ensures AtLeast(a, b) || AtLeast(b, a)
    ensures AtLeast(a, b) && AtLeast(b, a) ==> a == b
  {
  }

  /** Debug < Information < Warning < Error < Fatal. */
  lemma LevelOrder()
    ensures !AtLeast(Debug, Information) && !AtLeast(Information, Warning)
    ensures !AtLeast(Warning, Error) && !AtLeast(Error, Fatal)
    ensures forall l :: AtLeast(Fatal, l) && AtLeast(l, Debug)
  {
  }

  /** A disabled exporter exports nothing. */
  lemma DisabledExportsNothing(minLogLevel: LogLevel, level: LogLevel)
    ensures !Exports(false, minLogLevel, level)
  {
  }

  /** A log below the minimum level is not exported. */
  lemma BelowMinimumNotExported(isEnabled: bool, minLogLevel: LogLevel, level: LogLevel)
    requires Rank(level) < Rank(minLogLevel)
    ensures !Exports(isEnabled, minLogLevel, level)
  {
  }

  /** A new exporter takes every log. */
  lemma DefaultsExportEverything(level: LogLevel)
    ensures Exports(true, Debug, level)
  {
  }

  /** Raising a log's level never stops it being exported. */
  lemma HigherLevelStillExported(isEnabled: bool, minLogLevel: LogLevel, level: LogLevel, higher: LogLevel)
    requires Exports(isEnabled, minLogLevel, level) && AtLeast(higher, level)
    ensures Exports(isEnabled, minLogLevel, higher)
  {
  }

  /** Raising the minimum never starts exporting a log that was dropped. */
  lemma StricterMinimumExportsLess(isEnabled: bool, minLogLevel: LogLevel, stricter: LogLevel, level: LogLevel)
    requires AtLeast(stricter, minLogLevel) && Exports(isEnabled, stricter, level)
    ensures Exports(isEnabled, minLogLevel, level)
  {
  }
}
