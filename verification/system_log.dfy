/**
 * The log router (`system_log.c`): one front end that formats an entry and
 * hands it to the rotating text log and the RAM ring log according to its
 * level and the configuration.
 *
 * Names are the ASCII bytes of the C string tables. The timestamp string
 * (`strftime` of the local time) and the formatted message (`vsnprintf` of
 * the caller's arguments) are parameters, as is `time(NULL)`.
 */
module SystemLog {
  import opened Common
  import opened Files
  import TextLog
  import RamLog

  /** `char message[256]`: at most 255 characters of the formatted message. */
  const MESSAGE_MAX: nat := 255
  /** `char log_entry[512]`. */
  const ENTRY_MAX: nat := 511
  /** `char timestamp[32]`. */
  const TIMESTAMP_MAX: nat := 31

  // `log_level_t`
  const LOG_DEBUG := 0
  const LOG_INFO := 1
  const LOG_WARN := 2
  const LOG_ERROR := 3
  const LOG_FATAL := 4
  const LOG_EVENT := 5

  const LOG_MODULE_SYSTEM := 0
  const LOG_EVENT_SYSTEM_BOOT := 0
  const LOG_EVENT_SYSTEM_SHUTDOWN := 1

  /** "UNKNOWN" */
  const UNKNOWN: Bytes := [0x55, 0x4E, 0x4B, 0x4E, 0x4F, 0x57, 0x4E]

  /** `level_strings`: DEBUG, INFO, WARN, ERROR, FATAL, EVENT. */
  const LEVEL_NAMES: seq<Bytes> := [
    [0x44, 0x45, 0x42, 0x55, 0x47],
    [0x49, 0x4E, 0x46, 0x4F],
    [0x57, 0x41, 0x52, 0x4E],
    [0x45, 0x52, 0x52, 0x4F, 0x52],
    [0x46, 0x41, 0x54, 0x41, 0x4C],
    [0x45, 0x56, 0x45, 0x4E, 0x54]]

  /** `module_strings`: SYSTEM, WIFI, UI, FILE, AUDIO, NOTEBOOK, HTTP, SETTING. */
  const MODULE_NAMES: seq<Bytes> := [
    [0x53, 0x59, 0x53, 0x54, 0x45, 0x4D],
    [0x57, 0x49, 0x46, 0x49],
    [0x55, 0x49],
    [0x46, 0x49, 0x4C, 0x45],
    [0x41, 0x55, 0x44, 0x49, 0x4F],
    [0x4E, 0x4F, 0x54, 0x45, 0x42, 0x4F, 0x4F, 0x4B],
    [0x48, 0x54, 0x54, 0x50],
    [0x53, 0x45, 0x54, 0x54, 0x49, 0x4E, 0x47]]

  /** `event_type_strings`: SYSTEM_BOOT, SYSTEM_SHUTDOWN, WIFI_CONNECT,
      WIFI_DISCONNECT, FILE_SAVE, FILE_DELETE, CONFIG_CHANGE, USER_OPERATION,
      ERROR_OCCURRED. */
  const EVENT_NAMES: seq<Bytes> := [
    [0x53, 0x59, 0x53, 0x54, 0x45, 0x4D, 0x5F, 0x42, 0x4F, 0x4F, 0x54],
    [0x53, 0x59, 0x53, 0x54, 0x45, 0x4D, 0x5F, 0x53, 0x48, 0x55, 0x54, 0x44, 0x4F, 0x57, 0x4E],
    [0x57, 0x49, 0x46, 0x49, 0x5F, 0x43, 0x4F, 0x4E, 0x4E, 0x45, 0x43, 0x54],
    [0x57, 0x49, 0x46, 0x49, 0x5F, 0x44, 0x49, 0x53, 0x43, 0x4F, 0x4E, 0x4E, 0x45, 0x43, 0x54],
    [0x46, 0x49, 0x4C, 0x45, 0x5F, 0x53, 0x41, 0x56, 0x45],
    [0x46, 0x49, 0x4C, 0x45, 0x5F, 0x44, 0x45, 0x4C, 0x45, 0x54, 0x45],
    [0x43, 0x4F, 0x4E, 0x46, 0x49, 0x47, 0x5F, 0x43, 0x48, 0x41, 0x4E, 0x47, 0x45],
    [0x55, 0x53, 0x45, 0x52, 0x5F, 0x4F, 0x50, 0x45, 0x52, 0x41, 0x54, 0x49, 0x4F, 0x4E],
    [0x45, 0x52, 0x52, 0x4F, 0x52, 0x5F, 0x4F, 0x43, 0x43, 0x55, 0x52, 0x52, 0x45, 0x44]]

  /** "EVENT", the level tag `system_log_event` writes. */
  const EVENT_TAG: Bytes := [0x45, 0x56, 0x45, 0x4E, 0x54]

  /** The UTF-8 boot message "日志系统初始化完成". */
  const BOOT_MESSAGE: Bytes := [0xE6, 0x97, 0xA5, 0xE5, 0xBF, 0x97, 0xE7, 0xB3, 0xBB, 0xE7, 0xBB, 0x9F,
                                0xE5, 0x88, 0x9D, 0xE5, 0xA7, 0x8B, 0xE5, 0x8C, 0x96, 0xE5, 0xAE, 0x8C,
                                0xE6, 0x88, 0x90]
  /** The UTF-8 shutdown message "日志系统关闭". */
  const SHUTDOWN_MESSAGE: Bytes := [0xE6, 0x97, 0xA5, 0xE5, 0xBF, 0x97, 0xE7, 0xB3, 0xBB, 0xE7, 0xBB, 0x9F,
                                    0xE5, 0x85, 0xB3, 0xE9, 0x97, 0xAD]

  /** A table lookup that answers "UNKNOWN" outside the table. */
  function NameIn(table: seq<Bytes>, i: int): (r: Bytes)
    ensures r == UNKNOWN || r in table
    ensures 0 <= i < |table| ==> r == table[i]
  {
    if i < 0 || i >= |table| then UNKNOWN else table[i]
  }

  /** `log_level_to_string`: never empty and at most 7 bytes. */
  function LevelName(level: int): (r: Bytes)
    ensures 1 <= |r| <= 7
  {
    NameIn(LEVEL_NAMES, level)
  }

  /** `log_module_to_string`: never empty and at most 8 bytes ("NOTEBOOK"). */
  function ModuleName(origin: int): (r: Bytes)
    ensures 1 <= |r| <= 8
  {
    NameIn(MODULE_NAMES, origin)
  }

  /** `log_event_type_to_string`: never empty and at most 15 bytes
      ("SYSTEM_SHUTDOWN", "WIFI_DISCONNECT"). */
  function EventName(kind: int): (r: Bytes)
    ensures 1 <= |r| <= 15
  {
    NameIn(EVENT_NAMES, kind)
  }

  /** "UNKNOWN" is answered exactly for the values outside each table, so a
      known name always identifies its enumerator. */
  lemma NamesKnown(level: int, origin: int, kind: int)
    ensures (LevelName(level) == UNKNOWN) == !(0 <= level < 6)
    ensures (ModuleName(origin) == UNKNOWN) == !(0 <= origin < 8)
    ensures (EventName(kind) == UNKNOWN) == !(0 <= kind < 9)
  {
    if 0 <= level < 6 {
      assert LevelName(level)[0] != UNKNOWN[0];
    }
    if 0 <= origin < 8 {
      assert ModuleName(origin)[0] != UNKNOWN[0] || ModuleName(origin)[1] != UNKNOWN[1];
    }
    if 0 <= kind < 9 {
      assert EventName(kind)[0] != UNKNOWN[0] || EventName(kind)[1] != UNKNOWN[1];
    }
  }

  /** `"[%s] [%s] [%s] "` of the timestamp, level and module: the
      timestamp in brackets at the front, and at most 24 bytes besides it. */
  function EntryHeader(ts: Bytes, level: int, origin: int): (r: Bytes)
    ensures |ts| + 11 <= |r| <= |ts| + 24
    ensures r[..1] == [0x5B] && r[1..|ts| + 1] == ts && r[|ts| + 1] == 0x5D
  {
    [0x5B] + ts + [0x5D, 0x20, 0x5B] + LevelName(level) + [0x5D, 0x20, 0x5B] + ModuleName(origin) + [0x5D, 0x20]
  }

  /** The entry `system_log_write` builds: the header and the message cut to
      255 characters, all cut to 511. */
  function LogEntry(ts: Bytes, level: int, origin: int, msg: Bytes): (r: Bytes)
    ensures |r| <= ENTRY_MAX
  {
    Take(EntryHeader(ts, level, origin) + Take(msg, MESSAGE_MAX), ENTRY_MAX)
  }

  /** With a timestamp that fits its 32-byte buffer the 511-byte cut never
      bites: the entry is the whole header followed by the first 255
      characters of the message. */
  lemma LogEntryKeepsMessage(ts: Bytes, level: int, origin: int, msg: Bytes)
    requires |ts| <= TIMESTAMP_MAX
    ensures var h := EntryHeader(ts, level, origin);
      && LogEntry(ts, level, origin, msg)[..|h|] == h
      && LogEntry(ts, level, origin, msg)[|h|..] == Take(msg, MESSAGE_MAX)
  {
    var h := EntryHeader(ts, level, origin);
    assert |h| <= 1 + TIMESTAMP_MAX + 3 + 7 + 3 + 8 + 2;
    assert LogEntry(ts, level, origin, msg) == h + Take(msg, MESSAGE_MAX);
  }

  /** `"[%s] [EVENT] [%s] [%s] "` of the timestamp, module and event kind:
      the timestamp in brackets at the front, then the "EVENT" tag, and at
      most 40 bytes besides the timestamp. */
  function EventHeader(ts: Bytes, origin: int, kind: int): (r: Bytes)
    ensures |ts| + 19 <= |r| <= |ts| + 40
    ensures r[..1] == [0x5B] && r[1..|ts| + 1] == ts && r[|ts| + 1] == 0x5D
    ensures r[|ts| + 4..|ts| + 9] == EVENT_TAG
  {
    [0x5B] + ts + [0x5D, 0x20, 0x5B] + EVENT_TAG + [0x5D, 0x20, 0x5B] + ModuleName(origin)
      + [0x5D, 0x20, 0x5B] + EventName(kind) + [0x5D, 0x20]
  }

  /** The entry `system_log_event` builds; the message is not cut before the
      whole entry is cut to 511. */
  function EventEntry(ts: Bytes, origin: int, kind: int, msg: Bytes): (r: Bytes)
    ensures |r| <= ENTRY_MAX
  {
    Take(EventHeader(ts, origin, kind) + msg, ENTRY_MAX)
  }

  /** An event entry always carries its whole header and then a prefix of
      the message, all of it when it fits. */
  lemma EventEntryShape(ts: Bytes, origin: int, kind: int, msg: Bytes)
    requires |ts| <= TIMESTAMP_MAX
    ensures var h := EventHeader(ts, origin, kind);
      && EventEntry(ts, origin, kind, msg)[..|h|] == h
      && EventEntry(ts, origin, kind, msg)[|h|..] <= msg
      && (|h| + |msg| <= ENTRY_MAX ==> EventEntry(ts, origin, kind, msg)[|h|..] == msg)
  {
    var h := EventHeader(ts, origin, kind);
    assert |h| <= 1 + TIMESTAMP_MAX + 3 + 5 + 3 + 8 + 3 + 15 + 2;
    var r := EventEntry(ts, origin, kind, msg);
    assert r == (h + msg)[..Min(|h| + |msg|, ENTRY_MAX)];
    assert r[|h|..] == msg[..Min(|h| + |msg|, ENTRY_MAX) - |h|];
  }

  /** Where an entry of a level goes: the text log, a text flush right after
      it, the RAM log. */
  datatype Route = Route(text: bool, flush: bool, ram: bool)

  /** The `switch (level)` of `system_log_write`: every entry kept in RAM
      is also written to the text log; the text log takes DEBUG to FATAL,
      RAM exactly WARN, ERROR and FATAL; only FATAL forces a flush; EVENT
      and out-of-range levels reach no back end. */
  function RouteOf(level: int): (r: Route)
    ensures r.ram ==> r.text
    ensures r.text == (LOG_DEBUG <= level <= LOG_FATAL)
    ensures r.ram == (LOG_WARN <= level <= LOG_FATAL)
    ensures r.flush == (level == LOG_FATAL)
  {
    if level == LOG_DEBUG || level == LOG_INFO then Route(true, false, false)
    else if level == LOG_WARN || level == LOG_ERROR then Route(true, false, true)
    else if level == LOG_FATAL then Route(true, true, true)
    else Route(false, false, false)
  }

  /** `log_config_t`. */
  datatype LogConfig = LogConfig(enableText: bool, enableRam: bool, enableEvent: bool, minLevel: int,
                                 ramBufferSize: TextLog.U32, textMaxSize: TextLog.U32,
                                 textMaxFiles: TextLog.U32)

  /** The initial value of `g_log_config`. */
  const DEFAULT_CONFIG := LogConfig(true, true, false, LOG_DEBUG, 512, 100 * 1024, 5)

  class SystemLog {
    var config: LogConfig
    var initialized: bool
    const text: TextLog.TextLog
    const ram: RamLog.RamLog
    const fs: FileSystem

    ghost predicate Valid()
      reads this, text, fs, ram, ram.slots
    {
      text.fs == fs && text.Valid() && ram.Valid()
    }

    /** The globals of the router and both back ends before any call. */
    constructor (fs: FileSystem)
      ensures Valid() && this.fs == fs && fresh(text) && fresh(text.buffer) && fresh(ram) && fresh(ram.slots)
      ensures config == DEFAULT_CONFIG && !initialized && !text.initialized && !ram.initialized
      ensures text.written == [] && ram.history == []
    {
      config := DEFAULT_CONFIG;
      initialized := false;
      text := new TextLog.TextLog(fs);
      ram := new RamLog.RamLog();
      this.fs := fs;
    }

    /** `system_log_event`: the event entry goes to the text log only, and
        the text log takes it on unless a rotation it triggers fails;
        `faults` are those of that rotation. */
    method Event(origin: int, kind: int, msg: Bytes, ts: Bytes, now: int, faults: TextLog.RotateFaults)
      requires Valid()
      modifies this, text, fs, text.buffer
      ensures Valid() && config == old(config) && initialized == old(initialized)
      ensures text.initialized == old(text.initialized)
      ensures var line := TextLog.EntryLine(EventEntry(ts, origin, kind, msg));
        text.written == old(text.written)
          + (if initialized && config.enableText && old(text.Accepts(|line|, faults)) then [line] else [])
      ensures !(initialized && config.enableText) ==> unchanged(text) && fs.files == old(fs.files)
    {
      if !initialized {
        return;
      }
      var entry := EventEntry(ts, origin, kind, msg);
      if config.enableText {
        var _ := text.Write(Some(entry), now, faults);
      }
    }

    /** `system_log_init`: adopt `cfg` (None for `NULL`), start the text
        log (`dirFails`/`openFails` are its faults), then the RAM log; a
        failing back end makes the result -1 without stopping the other. The
        router is initialised either way, and the boot event is logged only
        when the result is 0. A second call changes nothing. */
    method Init(cfg: Option<LogConfig>, dirFails: bool, openFails: bool, ts: Bytes, now: int, faults: TextLog.RotateFaults)
      returns (r: int)
      requires Valid()
      modifies this, text, fs, text.buffer, ram, ram.slots
      ensures Valid()
      ensures old(initialized) ==>
        r == 0 && unchanged(this) && unchanged(text) && fs.files == old(fs.files) && unchanged(ram)
      ensures !old(initialized) ==>
        && initialized
        && config == (if cfg.Some? then cfg.value else old(config))
        && r == (if config.enableText && !old(text.initialized) && (dirFails || openFails) then -1 else 0)
        && (config.enableText ==> text.initialized == (old(text.initialized) || !(dirFails || openFails)))
        && (config.enableRam ==> ram.initialized && (!old(ram.initialized) ==> ram.history == []))
        && (config.enableRam && old(ram.initialized) ==> ram.history == old(ram.history))
        && (!config.enableRam ==> unchanged(ram) && ram.history == old(ram.history))
        && var boot := TextLog.EntryLine(EventEntry(ts, LOG_MODULE_SYSTEM, LOG_EVENT_SYSTEM_BOOT, BOOT_MESSAGE));
           // the text log's size and limit when the boot event is written
           var size := if old(text.initialized) then old(text.currentFileSize)
                       else |TextLog.LiveOf(old(fs.files))| % TextLog.TWO32;
           var max := if old(text.initialized) then old(text.config.maxFileSize) else config.textMaxSize;
           text.written == old(text.written)
             + (if r == 0 && config.enableText && !(TextLog.Rotates(size, |boot|, max) && faults.reopen)
                then [boot] else [])
    {
      if initialized {
        return 0;
      }
      if cfg.Some? {
        config := cfg.value;
      }
      r := StartBackends(dirFails, openFails, now);
      initialized := true;
      if r == 0 {
        Event(LOG_MODULE_SYSTEM, LOG_EVENT_SYSTEM_BOOT, BOOT_MESSAGE, ts, now, faults);
      }
    }

    /** The back-end start-up of `system_log_init`: text, then RAM, each
        only when enabled; either failing makes the result -1. */
    method StartBackends(dirFails: bool, openFails: bool, now: int) returns (r: int)
      requires Valid()
      modifies text, fs, ram, ram.slots
      ensures Valid()
      ensures r == (if config.enableText && !old(text.initialized) && (dirFails || openFails) then -1 else 0)
      ensures config.enableText ==> text.initialized == (old(text.initialized) || !(dirFails || openFails))
      ensures !config.enableText ==> unchanged(text) && fs.files == old(fs.files)
      ensures text.written == old(text.written)
      ensures config.enableText && old(text.initialized) ==>
        text.currentFileSize == old(text.currentFileSize) && text.config == old(text.config)
      ensures config.enableText && !old(text.initialized) && r == 0 ==>
        && text.config == TextLog.Config(config.textMaxSize, config.textMaxFiles)
        && text.currentFileSize == |TextLog.LiveOf(old(fs.files))| % TextLog.TWO32
      ensures config.enableRam ==> ram.initialized && (!old(ram.initialized) ==> ram.history == [])
      ensures config.enableRam && old(ram.initialized) ==> ram.history == old(ram.history)
      ensures !config.enableRam ==> unchanged(ram) && ram.history == old(ram.history)
    {
      r := 0;
      if config.enableText {
        var t := text.Init(Some(TextLog.Config(config.textMaxSize, config.textMaxFiles)), dirFails, openFails, now);
        if t != 0 {
          r := -1;
        }
      }
      if config.enableRam {
        var m := ram.Init();
        if m != 0 {
          r := -1;
        }
      }
    }

    /** `system_log_deinit`: log the shutdown event, stop the text log, then
        the RAM log. */
    method Deinit(ts: Bytes, now: int, faults: TextLog.RotateFaults)
      requires Valid()
      modifies this, text, fs, text.buffer, ram
      ensures Valid() && config == old(config) && !initialized
      ensures !old(initialized) ==> unchanged(this) && unchanged(text) && fs.files == old(fs.files) && unchanged(ram)
      ensures var bye := TextLog.EntryLine(EventEntry(ts, LOG_MODULE_SYSTEM, LOG_EVENT_SYSTEM_SHUTDOWN, SHUTDOWN_MESSAGE));
        old(initialized) ==>
        && text.written == old(text.written)
             + (if config.enableText && old(text.Accepts(|bye|, faults)) then [bye] else [])
        && (config.enableText ==> !text.initialized && (old(text.initialized) ==> !text.fileOpen))
        && (config.enableRam ==> !ram.initialized)
        && ram.history == old(ram.history)
    {
      if !initialized {
        return;
      }
      Event(LOG_MODULE_SYSTEM, LOG_EVENT_SYSTEM_SHUTDOWN, SHUTDOWN_MESSAGE, ts, now, faults);
      if config.enableText {
        text.Deinit();
      }
      if config.enableRam {
        ram.Deinit();
      }
      initialized := false;
    }

    /** `system_log_write` of the formatted message `msg` at `level` from
        `origin`: nothing when the router is off or the level is below
        `min_level`, otherwise the entry goes where `RouteOf(level)` says,
        each back end only when enabled. */
    method Write(level: int, origin: int, msg: Bytes, ts: Bytes, now: int, faults: TextLog.RotateFaults)
      requires Valid()
      modifies this, text, fs, text.buffer, ram, ram.slots
      ensures Valid() && config == old(config) && initialized == old(initialized)
      ensures text.initialized == old(text.initialized) && ram.initialized == old(ram.initialized)
      ensures var passes := initialized && level >= config.minLevel;
        var entry := LogEntry(ts, level, origin, msg);
        var toText := passes && RouteOf(level).text && config.enableText;
        var toRam := passes && RouteOf(level).ram && config.enableRam;
        var line := TextLog.EntryLine(entry);
        && text.written == old(text.written) + (if toText && old(text.Accepts(|line|, faults)) then [line] else [])
        && ram.history == old(ram.history) + (if toRam && old(ram.initialized) then [RamLog.Stored(entry, now)] else [])
        && (!toText ==> unchanged(text) && fs.files == old(fs.files))
        && (toText && RouteOf(level).flush && text.initialized && text.fileOpen ==> text.bufferUsed == 0)
    {
      if !initialized || level < config.minLevel {
        return;
      }
      var entry := LogEntry(ts, level, origin, msg);
      if level == LOG_DEBUG || level == LOG_INFO {
        SendText(entry, now, faults);
      } else if level == LOG_WARN || level == LOG_ERROR {
        SendText(entry, now, faults);
        SendRam(entry, now);
      } else if level == LOG_FATAL {
        SendText(entry, now, faults);
        if config.enableText {
          var _ := text.Flush();
        }
        SendRam(entry, now);
      }
    }

    /** `if (enable_text_log) text_log_write(log_entry);` */
    method SendText(entry: Bytes, now: int, faults: TextLog.RotateFaults)
      requires Valid()
      modifies this, text, fs, text.buffer
      ensures Valid() && config == old(config) && initialized == old(initialized)
      ensures var line := TextLog.EntryLine(entry);
        text.written == old(text.written) + (if config.enableText && old(text.Accepts(|line|, faults)) then [line] else [])
      ensures !config.enableText ==> unchanged(text) && fs.files == old(fs.files)
      ensures text.initialized == old(text.initialized)
    {
      if config.enableText {
        var _ := text.Write(Some(entry), now, faults);
      }
    }

    /** `if (enable_ram_log) ram_log_write(log_entry);` */
    method SendRam(entry: Bytes, now: int)
      requires Valid()
      modifies this, ram, ram.slots
      ensures Valid() && config == old(config) && initialized == old(initialized)
      ensures ram.history == old(ram.history) + (if config.enableRam && old(ram.initialized) then [RamLog.Stored(entry, now)] else [])
      ensures ram.initialized == old(ram.initialized)
    {
      if config.enableRam {
        var _ := ram.Write(Some(entry), now);
      }
    }

    /** `system_log_get_ram_buffer`: every stored RAM entry, newest first,
        as `ram_log_read_latest(buffer, size, 0)` renders them. */
    method GetRamBuffer(buffer: array?<bv8>, size: TextLog.U32) returns (r: int)
      requires Valid()
      requires buffer != null ==> size <= buffer.Length
      modifies buffer
      ensures !initialized || !config.enableRam || !ram.initialized || buffer == null || size == 0 ==>
        r == -1 && (buffer != null ==> unchanged(buffer))
      ensures initialized && config.enableRam && ram.initialized && buffer != null && size > 0 ==>
        && r == Min(|ram.history|, RamLog.CAPACITY)
        && var t := RamLog.Render(RamLog.Texts(RamLog.Latest(ram.history, r)), size, []);
           && |t| < size
           && buffer[..|t|] == t && buffer[|t|] == 0 && buffer[|t| + 1..] == old(buffer[|t| + 1..])
    {
      if !initialized || !config.enableRam {
        return -1;
      }
      ram.StoredCountIsMin();
      r := ram.ReadLatest(buffer, size, 0);
    }

    /** `system_log_read_text`: the start of the live text log file. */
    method ReadText(buffer: array?<bv8>, size: TextLog.U32, openFails: bool) returns (r: int)
      requires Valid()
      requires buffer != null ==> size <= buffer.Length && buffer != text.buffer && buffer as object != ram.slots
      modifies text, fs, buffer
      ensures Valid()
      ensures !initialized || !config.enableText || !old(text.initialized) || buffer == null || size == 0 ==>
        r == -1 && unchanged(text) && fs.files == old(fs.files) && (buffer != null ==> unchanged(buffer))
      ensures initialized && config.enableText && old(text.initialized) && buffer != null && size > 0 ==>
        && (old(text.fileOpen) ==> fs.files == old(fs.files)[TextLog.LIVE := old(text.Logical())])
        && (openFails || TextLog.LIVE !in fs.files ==> r == -1 && buffer[..] == old(buffer[..]))
        && (!openFails && TextLog.LIVE in fs.files ==>
              && r == Min(size - 1, |fs.files[TextLog.LIVE]|)
              && buffer[..r] == fs.files[TextLog.LIVE][..r] && buffer[r] == 0
              && buffer[r + 1..] == old(buffer[r + 1..]))
      ensures text.initialized == old(text.initialized) && text.currentFileSize == old(text.currentFileSize)
    {
      if !initialized || !config.enableText {
        return -1;
      }
      r := text.Read(buffer, size, openFails);
    }

    /** `system_log_dump_ram_to_file` (`path` None for `NULL`, the default
        dump path). */
    method DumpRamToFile(path: Option<Path>, openFails: bool) returns (r: int)
      requires Valid()
      modifies fs
      ensures Valid()
      ensures !initialized || !config.enableRam || !ram.initialized || openFails ==>
        r == -1 && fs.files == old(fs.files)
      ensures initialized && config.enableRam && ram.initialized && !openFails ==>
        && r == 0
        && fs.files == old(fs.files)[(if path.Some? then path.value else RamLog.EXPORT_PATH) := RamLog.ExportText(ram.history)]
    {
      if !initialized || !config.enableRam {
        return -1;
      }
      r := ram.Export(fs, path, openFails);
    }
  }
}
