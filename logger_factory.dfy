/**
 * The logger factory: how the configuration picks a logger, how a legacy
 * numeric log level becomes a PSR-3 level, and what the factory pushes
 * onto a Monolog logger.
 *
 * The configuration is a map of the `system` category. The channel name,
 * the file-system checks and Monolog's level-name lookup are parameters.
 */
module LoggerFactory {
  import opened Strings

  /** A configuration value as PHP holds it. */
  datatype Value = Null | Bool(b: bool) | Int(i: int) | Str(s: string)

  /** The `system` category of the configuration. */
  type Config = map<string, Value>

  /** `$config->get('system', key, default)`: a key that is absent or null reads as the default. */
  function Get(cfg: Config, key: string, default: Value): Value
  {
    if key in cfg && cfg[key] != Null then cfg[key] else default
  }

  /** PHP's `empty`, which is also what `!$v` tests. */
  predicate Empty(v: Value)
  {
    match v
    case Null => true
    case Bool(b) => !b
    case Int(i) => i == 0
    case Str(s) => IsEmptyString(s)
  }

  /** PHP's `(string)` cast. */
  function PhpString(v: Value): string
  {
    match v
    case Null => ""
    case Bool(b) => if b then "1" else ""
    case Int(i) => if i >= 0 then NatToDecimal(i) else "-" + NatToDecimal(-i)
    case Str(s) => s
  }

  /** `(int)` of a string, as far as its leading digits go. */
  function LeadingInt(s: string): nat
  {
    DecimalValue(s[..DigitRun(s)])
  }

  /** A `case` label of a `switch`, which compares loosely: `v == label`. */
  predicate SwitchCase(v: Value, tag: string)
  {
    match v
    case Null => tag == ""
    case Bool(b) => b == !IsEmptyString(tag)
    case Int(i) => i == LeadingInt(tag)
    case Str(s) => LooseEquals(s, tag)
  }

  // ---------------------------------------------------------------------
  // Levels
  // ---------------------------------------------------------------------

  /** The PSR-3 level names. */
  const PsrLevels: set<string> := {"emergency", "alert", "critical", "error", "warning", "notice", "info", "debug"}

  /** The RFC 5424 severity code of a PSR-3 level: the larger, the more verbose. */
  function Severity(level: string): nat
  {
    if level == "emergency" then 0
    else if level == "alert" then 1
    else if level == "critical" then 2
    else if level == "error" then 3
    else if level == "warning" then 4
    else if level == "notice" then 5
    else if level == "info" then 6
    else 7
  }

  /** A level string the switch of `mapLegacyConfigDebugLevel` recognises. */
  predicate LegacyLevel(level: string)
  {
    LooseEquals(level, "0") || LooseEquals(level, "1") || LooseEquals(level, "2") ||
    LooseEquals(level, "3") || LooseEquals(level, "4") || LooseEquals(level, "5")
  }

  /** `mapLegacyConfigDebugLevel`: legacy 0 to 5 become PSR-3 levels; any other string passes through. */
  function MapLegacyLevel(level: string): (r: string)
    ensures LegacyLevel(level) ==> r in PsrLevels
    ensures !LegacyLevel(level) ==> r == level
  {
    if LooseEquals(level, "0") then "error"
    else if LooseEquals(level, "1") then "warning"
    else if LooseEquals(level, "2") then "notice"
    else if LooseEquals(level, "3") then "info"
    else if LooseEquals(level, "4") then "debug"
    else if LooseEquals(level, "5") then "debug"
    else level
  }

  /** The legacy levels, written as digits, and the PSR-3 level each becomes. */
  lemma LegacyLevels()
    ensures MapLegacyLevel("0") == "error" && MapLegacyLevel("1") == "warning"
    ensures MapLegacyLevel("2") == "notice" && MapLegacyLevel("3") == "info"
    ensures MapLegacyLevel("4") == "debug" && MapLegacyLevel("5") == "debug"
  {
    assert NumericString("0") && NumericString("1") && NumericString("2");
    assert NumericString("3") && NumericString("4") && NumericString("5");
  }

  /** A PSR-3 level name is not a legacy level, so mapping twice changes nothing. */
  lemma MapLegacyIdempotent(level: string)
    ensures MapLegacyLevel(MapLegacyLevel(level)) == MapLegacyLevel(level)
  {
    var r := MapLegacyLevel(level);
    if r in PsrLevels {
      assert !NumericString(r) by {
        assert !IsDigit(r[0]);
      }
    }
  }

  /** A more verbose legacy level never maps to a less verbose PSR-3 level. */
  lemma LegacyVerbosityMonotone(a: nat, b: nat)
    requires a <= b <= 5
    ensures Severity(MapLegacyLevel(NatToDecimal(a))) <= Severity(MapLegacyLevel(NatToDecimal(b)))
  {
    LegacyDigit(a);
    LegacyDigit(b);
  }

  /** The level a single legacy digit maps to. */
  lemma LegacyDigit(d: nat)
    requires d <= 5
    ensures Severity(MapLegacyLevel(NatToDecimal(d))) == if d == 5 then 7 else d + 3
  {
    LegacyLevels();
    assert NatToDecimal(d) == [(48 + d) as char];
    if d == 0 { assert NatToDecimal(d) == "0"; }
    else if d == 1 { assert NatToDecimal(d) == "1"; }
    else if d == 2 { assert NatToDecimal(d) == "2"; }
    else if d == 3 { assert NatToDecimal(d) == "3"; }
    else if d == 4 { assert NatToDecimal(d) == "4"; }
    else { assert NatToDecimal(d) == "5"; }
  }

  /** The switch compares loosely, so a zero-padded digit still counts as the legacy level. */
  lemma PaddedLegacyLevel()
    ensures MapLegacyLevel("00") == "error" && MapLegacyLevel("03") == "info"
  {
    assert NumericString("00") && NumericString("0") && DecimalValue("00") == 0;
    assert NumericString("03") && NumericString("3") && DecimalValue("03") == 3;
    assert DecimalValue("03") != DecimalValue("1") && DecimalValue("03") != DecimalValue("2");
    assert NumericString("1") && NumericString("2");
  }

  // ---------------------------------------------------------------------
  // Monolog loggers
  // ---------------------------------------------------------------------

  /** A Monolog level as `toMonologLevel` leaves it: a numeric code, or a name it did not recognise. */
  datatype MonologLevel = Code(n: int) | Name(s: string)

  datatype Processor = PsrLogMessage | ProcessId | Uid | Introspection(level: string)

  datatype Handler = StreamHandler(stream: Value, level: MonologLevel) | DevelopHandler(ip: Value) | NullHandler

  /** A Monolog logger: its processors and handlers are stacks, and a push puts the entry on top. */
  class MonologLogger {
    var channel: string
    var processors: seq<Processor>
    var handlers: seq<Handler>

    constructor (channel: string)
      ensures this.channel == channel && processors == [] && handlers == []
    {
      this.channel := channel;
      processors := [];
      handlers := [];
    }

    method PushProcessor(p: Processor)
      modifies this
      ensures processors == [p] + old(processors)
      ensures channel == old(channel) && handlers == old(handlers)
    {
      processors := [p] + processors;
    }

    method PushHandler(h: Handler)
      modifies this
      ensures handlers == [h] + old(handlers)
      ensures channel == old(channel) && processors == old(processors)
    {
      handlers := [h] + handlers;
    }
  }

  /** The loggers the factory hands out. */
  datatype Logger =
    | VoidLogger
    | SyslogLogger(channel: string, level: string)
    | StreamLogger(channel: string, stream: Value, level: string)
    | Monolog(m: MonologLogger)
    | ProfilerLogger(inner: Logger)

  /** The Monolog object a logger holds, if any. */
  function Objects(l: Logger): set<object>
  {
    match l
    case Monolog(m) => {m}
    case ProfilerLogger(inner) => Objects(inner)
    case _ => {}
  }

  /** What a logger is, with a Monolog logger's current channel, processors and handlers. */
  datatype Shape =
    | VoidShape
    | SyslogShape(channel: string, level: string)
    | StreamShape(channel: string, stream: Value, level: string)
    | MonologShape(channel: string, processors: seq<Processor>, handlers: seq<Handler>)
    | ProfiledShape(inner: Shape)

  function ShapeOf(l: Logger): Shape
    reads Objects(l)
  {
    match l
    case VoidLogger => VoidShape
    case SyslogLogger(c, level) => SyslogShape(c, level)
    case StreamLogger(c, stream, level) => StreamShape(c, stream, level)
    case Monolog(m) => MonologShape(m.channel, m.processors, m.handlers)
    case ProfilerLogger(inner) => ProfiledShape(ShapeOf(inner))
  }

  /** The logger under the profiler wrapper. */
  function Unwrapped(s: Shape): Shape
  {
    if s.ProfiledShape? then Unwrapped(s.inner) else s
  }

  /** The level a stream handler gets: Monolog's code for the level name, or "notice" when there is none. */
  function HandlerLevel(level: string, toLevel: string -> Option<int>): MonologLevel
  {
    match toLevel(level)
    case Some(n) => Code(n)
    case None => Name("notice")
  }

  /**
   * `addStreamHandler`: a Monolog logger gets a stream handler on top of
   * its handlers; any other logger is refused with an exception.
   */
  method AddStreamHandler(logger: Logger, stream: Value, level: string, toLevel: string -> Option<int>) returns (thrown: bool)
    modifies if logger.Monolog? then {logger.m} else {}
    ensures thrown <==> !logger.Monolog?
    ensures logger.Monolog? ==>
      logger.m.handlers == [StreamHandler(stream, HandlerLevel(level, toLevel))] + old(logger.m.handlers) &&
      logger.m.processors == old(logger.m.processors) && logger.m.channel == old(logger.m.channel)
  {
    if logger.Monolog? {
      logger.m.PushHandler(StreamHandler(stream, HandlerLevel(level, toLevel)));
      thrown := false;
    } else {
      thrown := true;
    }
  }

  /** `addVoidHandler`: a Monolog logger gets a null handler on top; any other logger is left alone. */
  method AddVoidHandler(logger: Logger)
    modifies if logger.Monolog? then {logger.m} else {}
    ensures logger.Monolog? ==>
      logger.m.handlers == [NullHandler] + old(logger.m.handlers) &&
      logger.m.processors == old(logger.m.processors) && logger.m.channel == old(logger.m.channel)
  {
    if logger.Monolog? {
      logger.m.PushHandler(NullHandler);
    }
  }

  // ---------------------------------------------------------------------
  // Choosing the logger
  // ---------------------------------------------------------------------

  datatype Kind = MonologKind | SyslogKind | StreamKind

  /** The switch on `logger_config`: the first case label the value loosely equals, "stream" by default. */
  function LoggerKind(v: Value): Kind
  {
    if SwitchCase(v, "monolog") then MonologKind
    else if SwitchCase(v, "syslog") then SyslogKind
    else StreamKind
  }

  /** The three names select their kind, and every other string selects the stream logger. */
  lemma LoggerKindNames(s: string)
    ensures LoggerKind(Str("monolog")) == MonologKind && LoggerKind(Str("syslog")) == SyslogKind
    ensures s != "monolog" && s != "syslog" ==> LoggerKind(Str(s)) == StreamKind
  {
    assert !IsDigit("monolog"[0]) && !IsDigit("syslog"[0]);
  }

  /** Compared loosely, `true` and `0` both match the first case label, so they select Monolog. */
  lemma LoggerKindLoose()
    ensures LoggerKind(Bool(true)) == MonologKind && LoggerKind(Int(0)) == MonologKind
  {
    assert DigitRun("monolog") == 0;
  }

  /** Whether a stream may be used: it is not an existing file, or it is writable. */
  predicate Usable(stream: Value, isFile: Value -> bool, isWritable: Value -> bool)
  {
    !isFile(stream) || isWritable(stream)
  }

  /** `isset($profiling) && $profiling !== false`. */
  predicate Profiling(cfg: Config)
  {
    var p := Get(cfg, "profiling", Bool(false));
    p != Null && p != Bool(false)
  }

  /** The processors the factory pushes, in the order they end up on the stack. */
  const FactoryProcessors: seq<Processor> := [Introspection("debug"), Uid, ProcessId, PsrLogMessage]

  /** Wraps a logger in the profiler logger when profiling is on. */
  function Profiled(cfg: Config, s: Shape): Shape
  {
    if Profiling(cfg) then ProfiledShape(s) else s
  }

  /** The logger of the chosen kind, before the profiler wrapper, once debugging is on. */
  function KindShape(kind: Kind, channel: string, stream: Value, level: string, usable: bool, toLevel: string -> Option<int>): Shape
  {
    match kind
    case MonologKind =>
      MonologShape(channel, FactoryProcessors, if usable then [StreamHandler(stream, HandlerLevel(level, toLevel))] else [])
    case SyslogKind => SyslogShape(channel, level)
    case StreamKind => if usable then StreamShape(channel, stream, level) else VoidShape
  }

  /** The level `create` configures: the legacy mapping of the `loglevel` setting as a string. */
  function ConfiguredLevel(cfg: Config): string
  {
    MapLegacyLevel(PhpString(Get(cfg, "loglevel", Null)))
  }

  /** The logger `create` returns. */
  function CreatedShape(cfg: Config, channel: string, isFile: Value -> bool, isWritable: Value -> bool, toLevel: string -> Option<int>): Shape
  {
    if Empty(Get(cfg, "debugging", Bool(false))) then VoidShape
    else
      var stream := Get(cfg, "logfile", Null);
      var kind := LoggerKind(Get(cfg, "logger_config", Str("stream")));
      Profiled(cfg, KindShape(kind, channel, stream, ConfiguredLevel(cfg), Usable(stream, isFile, isWritable), toLevel))
  }

  /** Pushes the four processors of the factory onto a fresh Monolog logger. */
  method NewMonolog(channel: string) returns (m: MonologLogger)
    ensures fresh(m)
    ensures m.channel == channel && m.processors == FactoryProcessors && m.handlers == []
  {
    m := new MonologLogger(channel);
    m.PushProcessor(PsrLogMessage);
    m.PushProcessor(ProcessId);
    m.PushProcessor(Uid);
    m.PushProcessor(Introspection("debug"));
  }

  /** The switch of `create`: builds the logger of the chosen kind. */
  method BuildLogger(kind: Kind, channel: string, stream: Value, level: string, usable: bool, toLevel: string -> Option<int>)
    returns (logger: Logger)
    ensures fresh(Objects(logger))
    ensures ShapeOf(logger) == KindShape(kind, channel, stream, level, usable, toLevel)
  {
    match kind {
      case MonologKind =>
        var m := NewMonolog(channel);
        if usable {
          var thrown := AddStreamHandler(Monolog(m), stream, level, toLevel);
        }
        logger := Monolog(m);
      case SyslogKind =>
        logger := SyslogLogger(channel, level);
      case StreamKind =>
        logger := if usable then StreamLogger(channel, stream, level) else VoidLogger;
    }
  }

  /** `create`: the logger for the configuration, `channel` being the name of the running script. */
  method Create(cfg: Config, channel: string, isFile: Value -> bool, isWritable: Value -> bool, toLevel: string -> Option<int>)
    returns (logger: Logger)
    ensures fresh(Objects(logger))
    ensures ShapeOf(logger) == CreatedShape(cfg, channel, isFile, isWritable, toLevel)
  {
    if Empty(Get(cfg, "debugging", Bool(false))) {
      return VoidLogger;
    }
    var stream := Get(cfg, "logfile", Null);
    var kind := LoggerKind(Get(cfg, "logger_config", Str("stream")));
    logger := BuildLogger(kind, channel, stream, ConfiguredLevel(cfg), Usable(stream, isFile, isWritable), toLevel);
    if Profiling(cfg) {
      logger := ProfilerLogger(logger);
    }
  }

  /** With debugging empty, `create` hands out the void logger whatever else is set. */
  lemma CreateQuietWithoutDebugging(cfg: Config, channel: string, isFile: Value -> bool, isWritable: Value -> bool, toLevel: string -> Option<int>)
    requires Empty(Get(cfg, "debugging", Bool(false)))
    ensures CreatedShape(cfg, channel, isFile, isWritable, toLevel) == VoidShape
  {
  }

  /** With debugging on, the logger is wrapped in the profiler logger exactly when profiling is set and not false. */
  lemma CreateProfiledIff(cfg: Config, channel: string, isFile: Value -> bool, isWritable: Value -> bool, toLevel: string -> Option<int>)
    requires !Empty(Get(cfg, "debugging", Bool(false)))
    ensures var s := CreatedShape(cfg, channel, isFile, isWritable, toLevel);
      s.ProfiledShape? <==> Profiling(cfg)
  {
  }

  /** The stream logger falls back to the void logger when its file exists but cannot be written. */
  lemma CreateStreamUnwritable(cfg: Config, channel: string, isFile: Value -> bool, isWritable: Value -> bool, toLevel: string -> Option<int>)
    requires !Empty(Get(cfg, "debugging", Bool(false)))
    requires LoggerKind(Get(cfg, "logger_config", Str("stream"))) == StreamKind
    requires isFile(Get(cfg, "logfile", Null)) && !isWritable(Get(cfg, "logfile", Null))
    ensures Unwrapped(CreatedShape(cfg, channel, isFile, isWritable, toLevel)) == VoidShape
  {
  }

  /**
   * A Monolog logger carries the four processors, and a stream handler at
   * the mapped level exactly when its file may be written.
   */
  lemma CreateMonolog(cfg: Config, channel: string, isFile: Value -> bool, isWritable: Value -> bool, toLevel: string -> Option<int>)
    requires !Empty(Get(cfg, "debugging", Bool(false)))
    requires LoggerKind(Get(cfg, "logger_config", Str("stream"))) == MonologKind
    ensures var s := Unwrapped(CreatedShape(cfg, channel, isFile, isWritable, toLevel));
      var stream := Get(cfg, "logfile", Null);
      s.MonologShape? && s.channel == channel && s.processors == FactoryProcessors &&
      (|s.handlers| == 1 <==> Usable(stream, isFile, isWritable)) &&
      (Usable(stream, isFile, isWritable) ==>
        s.handlers[0] == StreamHandler(stream, HandlerLevel(MapLegacyLevel(PhpString(Get(cfg, "loglevel", Null))), toLevel)))
  {
  }

  // ---------------------------------------------------------------------
  // The developer logger
  // ---------------------------------------------------------------------

  /** Developer logging is on: a developer address is set and debugging is truthy. */
  predicate DevEnabled(cfg: Config)
  {
    Get(cfg, "dlogip", Null) != Null && !Empty(Get(cfg, "debugging", Null))
  }

  /** The guard of `createDev` as written: the void logger only when developer logging is off AND the file is usable. */
  predicate DevQuietAsWritten(cfg: Config, isFile: Value -> bool, isWritable: Value -> bool)
  {
    !DevEnabled(cfg) && Usable(Get(cfg, "dlogfile", Null), isFile, isWritable)
  }

  /** With no developer address set and an existing read-only file, the guard as written still builds a developer logger. */
  lemma DevLoggerWhileDisabled()
    ensures var cfg: Config := map[];
      !DevEnabled(cfg) && !DevQuietAsWritten(cfg, _ => true, _ => false)
  {
  }

  /** The guard of `createDev` as intended: the void logger when developer logging is off OR the file is unusable. */
  predicate DevQuiet(cfg: Config, isFile: Value -> bool, isWritable: Value -> bool)
  {
    !DevEnabled(cfg) || !Usable(Get(cfg, "dlogfile", Null), isFile, isWritable)
  }

  /** The developer logger of `createDev`, past the guard: the "dev" channel at debug level. */
  function DevKindShape(kind: Kind, stream: Value, ip: Value, toLevel: string -> Option<int>): Shape
  {
    match kind
    case MonologKind =>
      MonologShape(DevChannel, FactoryProcessors, [StreamHandler(stream, HandlerLevel("debug", toLevel)), DevelopHandler(ip)])
    case SyslogKind => SyslogShape(DevChannel, "debug")
    case StreamKind => StreamShape(DevChannel, stream, "debug")
  }

  const DevChannel := "dev"

  /** The logger `createDev` returns. */
  function DevShape(cfg: Config, isFile: Value -> bool, isWritable: Value -> bool, toLevel: string -> Option<int>): Shape
  {
    if DevQuiet(cfg, isFile, isWritable) then VoidShape
    else
      var kind := LoggerKind(Get(cfg, "logger_config", Str("stream")));
      Profiled(cfg, DevKindShape(kind, Get(cfg, "dlogfile", Null), Get(cfg, "dlogip", Null), toLevel))
  }

  /** The switch of `createDev`: builds the developer logger of the chosen kind. */
  method BuildDevLogger(kind: Kind, stream: Value, ip: Value, toLevel: string -> Option<int>) returns (logger: Logger)
    ensures fresh(Objects(logger))
    ensures ShapeOf(logger) == DevKindShape(kind, stream, ip, toLevel)
  {
    match kind {
      case MonologKind =>
        var m := NewMonolog(DevChannel);
        m.PushHandler(DevelopHandler(ip));
        var thrown := AddStreamHandler(Monolog(m), stream, "debug", toLevel);
        logger := Monolog(m);
      case SyslogKind =>
        logger := SyslogLogger(DevChannel, "debug");
      case StreamKind =>
        logger := StreamLogger(DevChannel, stream, "debug");
    }
  }

  /**
   * `createDev`, with the intended guard: the developer logger, or the
   * void logger when developer logging is off or its file is unusable.
   */
  method CreateDev(cfg: Config, isFile: Value -> bool, isWritable: Value -> bool, toLevel: string -> Option<int>)
    returns (logger: Logger)
    ensures fresh(Objects(logger))
    ensures ShapeOf(logger) == DevShape(cfg, isFile, isWritable, toLevel)
  {
    if DevQuiet(cfg, isFile, isWritable) {
      return VoidLogger;
    }
    var kind := LoggerKind(Get(cfg, "logger_config", Str("stream")));
    logger := BuildDevLogger(kind, Get(cfg, "dlogfile", Null), Get(cfg, "dlogip", Null), toLevel);
    if Profiling(cfg) {
      logger := ProfilerLogger(logger);
    }
  }

  /** A developer logger is built only when developer logging is on and its file may be written. */
  lemma DevLoggerOnlyWhenEnabled(cfg: Config, isFile: Value -> bool, isWritable: Value -> bool, toLevel: string -> Option<int>)
    ensures DevShape(cfg, isFile, isWritable, toLevel) != VoidShape <==>
      DevEnabled(cfg) && Usable(Get(cfg, "dlogfile", Null), isFile, isWritable)
  {
  }
}
