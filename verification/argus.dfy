/**
 The logger of argus.go: severity filtering, construction with options, the entry
 builder over an insertion-ordered record, and Print.

 The logger's io.Writer is passed to Print as a function from the text handed to one
 Write call to the error that call returns; Print reports the write calls it made and
 the error it returns. The clock is the `now` parameter of the builder factories.
 */
module Argus {
  import opened Wrappers
  import Levels
  import opened OrderedMap
  import opened JsonObject

  type Level = Levels.Level

  /** The field values a caller can add: the closed stand-in for Go's `interface{}`. */
  datatype Value =
    | Str(s: string)
    | Int(i: int)
    | Bool(b: bool)
    | Time(stamp: string)       // a timestamp, already in its textual form
    | Unsupported(kind: string) // a value json.Marshal refuses, such as a channel or a func

  datatype PrintError = MarshalFailed(kind: string) | WriteFailed(reason: string)

  /** One Write call: the text handed over and the error it returns. */
  type Writer = string -> Option<PrintError>

  /** A logger's configuration: the minimum level an entry needs to be written. */
  datatype Logger = Logger(minLevel: Level)

  datatype LoggerOption = WithMinLevel(level: Level)

  function ApplyOption(l: Logger, o: LoggerOption): Logger {
    match o
    case WithMinLevel(level) => l.(minLevel := level)
  }

  /** Options run one after another, in the order given. */
  function ApplyOptions(l: Logger, opts: seq<LoggerOption>): Logger
    decreases |opts|
  {
    if |opts| == 0 then l else ApplyOptions(ApplyOption(l, opts[0]), opts[1..])
  }

  /** Since every option sets the threshold, the last one decides it. */
  lemma {:induction false} LastOptionWins(l: Logger, opts: seq<LoggerOption>)
    ensures ApplyOptions(l, opts).minLevel == if |opts| == 0 then l.minLevel else opts[|opts| - 1].level
    decreases |opts|
  {
    if |opts| > 0 {
      LastOptionWins(ApplyOption(l, opts[0]), opts[1..]);
    }
  }

  /** A logger starts at threshold Debug; then the options apply. */
  function NewLogger(opts: seq<LoggerOption>): (l: Logger)
    ensures |opts| == 0 ==> l.minLevel == Levels.Debug
    ensures |opts| > 0 ==> l.minLevel == opts[|opts| - 1].level
  {
    LastOptionWins(Logger(Levels.Debug), opts);
    ApplyOptions(Logger(Levels.Debug), opts)
  }

  /** A log entry under construction: its logger, its level and its fields in order. */
  datatype Builder = Builder(logger: Logger, level: Level, fields: Record<Value>)

  /** Set a field: a new key goes last, an existing key keeps its place and takes the new value. */
  function Add(b: Builder, key: string, value: Value): (r: Builder)
    ensures r.logger == b.logger && r.level == b.level
    ensures Keys(r.fields) == if key in Keys(b.fields) then Keys(b.fields) else Keys(b.fields) + [key]
  {
    b.(fields := Set(b.fields, key, value))
  }

  /** On a well-formed record, Add stores the value under the key and leaves every other key alone. */
  lemma AddSpec(b: Builder, key: string, value: Value)
    requires Valid(b.fields)
    ensures Valid(Add(b, key, value).fields)
    ensures Get(Add(b, key, value).fields, key) == Some(value)
    ensures forall k :: k != key ==> Get(Add(b, key, value).fields, k) == Get(b.fields, k)
  {
    SetValid(b.fields, key, value);
    SetGet(b.fields, key, value);
  }

  /** Drop a field if present; the remaining keys keep their relative order. */
  function Remove(b: Builder, key: string): (r: Builder)
    ensures r.logger == b.logger && r.level == b.level
    ensures Keys(r.fields) == Without(Keys(b.fields), key)
    ensures key !in Keys(b.fields) ==> r == b
  {
    b.(fields := Delete(b.fields, key))
  }

  /** On a well-formed record, Remove drops the key and leaves every other key alone. */
  lemma RemoveSpec(b: Builder, key: string)
    requires Valid(b.fields)
    ensures Valid(Remove(b, key).fields)
    ensures Get(Remove(b, key).fields, key) == None
    ensures forall k :: k != key ==> Get(Remove(b, key).fields, k) == Get(b.fields, k)
  {
    DeleteSpec(b.fields, key);
  }

  /** A fresh entry: fields `level` (the entry's level) and `time` (the clock reading), in that order. */
  function NewBuilder(logger: Logger, level: Level, now: string): (b: Builder)
    ensures b.logger == logger && b.level == level
    ensures b.fields == [("level", Str(level)), ("time", Time(now))]
    ensures Keys(b.fields) == ["level", "time"]
  {
    var empty := Builder(logger, level, []);
    var b1 := Add(empty, "level", Str(level));
    assert b1.fields == [("level", Str(level))];
    assert Keys(b1.fields) == ["level"];
    var b2 := Add(b1, "time", Time(now));
    assert b2.fields == [("level", Str(level)), ("time", Time(now))];
    assert Keys(b2.fields) == ["level", "time"];
    b2
  }

  /** A fresh entry's fields are a valid record that maps `level` to the level and `time` to the clock reading. */
  lemma NewBuilderSpec(logger: Logger, level: Level, now: string)
    ensures Valid(NewBuilder(logger, level, now).fields)
    ensures Get(NewBuilder(logger, level, now).fields, "level") == Some(Str(level))
    ensures Get(NewBuilder(logger, level, now).fields, "time") == Some(Time(now))
  {
    var m := NewBuilder(logger, level, now).fields;
    assert Keys(m) == ["level", "time"];
    assert m[1..] == [("time", Time(now))];
  }

  /** A key other than `level` and `time` added to a fresh entry goes after both. */
  lemma AddToNew(logger: Logger, level: Level, now: string, key: string, value: Value)
    requires key != "level" && key != "time"
    ensures Add(NewBuilder(logger, level, now), key, value).fields
      == [("level", Str(level)), ("time", Time(now)), (key, value)]
  {
    var m := NewBuilder(logger, level, now).fields;
    assert key !in Keys(m) by {
      assert Keys(m) == ["level", "time"];
    }
    assert Set(m, key, value) == m + [(key, value)];
  }

  function Info(l: Logger, now: string): (b: Builder)
    ensures b.logger == l && b.level == Levels.Info
    ensures b.fields == [("level", Str("INFO")), ("time", Time(now))]
  {
    NewBuilder(l, Levels.Info, now)
  }

  function Warn(l: Logger, now: string): (b: Builder)
    ensures b.logger == l && b.level == Levels.Warn
    ensures b.fields == [("level", Str("WARN")), ("time", Time(now))]
  {
    NewBuilder(l, Levels.Warn, now)
  }

  function Error(l: Logger, now: string): (b: Builder)
    ensures b.logger == l && b.level == Levels.Error
    ensures b.fields == [("level", Str("ERROR")), ("time", Time(now))]
  {
    NewBuilder(l, Levels.Error, now)
  }

  function Debug(l: Logger, now: string): (b: Builder)
    ensures b.logger == l && b.level == Levels.Debug
    ensures b.fields == [("level", Str("DEBUG")), ("time", Time(now))]
  {
    NewBuilder(l, Levels.Debug, now)
  }

  function MarshalValue(v: Value): (r: Result<Json, PrintError>)
    ensures r.Failure? <==> v.Unsupported?
    ensures r.Failure? ==> r.error.MarshalFailed?
  {
    match v
    case Str(s) => Success(JStr(s))
    case Int(i) => Success(JNum(i))
    case Bool(b) => Success(JBool(b))
    case Time(stamp) => Success(JStr(stamp))
    case Unsupported(kind) => Failure(MarshalFailed(kind))
  }

  /** Every field value can be turned into JSON. */
  predicate Marshalable(fs: Record<Value>) {
    forall i :: 0 <= i < |fs| ==> !fs[i].1.Unsupported?
  }

  /**
   The JSON members of a record, key by key in record order, or the error of the first
   field whose value cannot be marshalled.
   */
  function MarshalFields(fs: Record<Value>): (r: Result<Fields, PrintError>)
    ensures r.Success? <==> Marshalable(fs)
    ensures r.Success? ==> |r.value| == |fs|
    ensures r.Success? ==> forall i :: 0 <= i < |fs| ==>
      r.value[i].0 == fs[i].0 && MarshalValue(fs[i].1) == Success(r.value[i].1)
    ensures r.Failure? ==>
      exists i :: 0 <= i < |fs| && MarshalValue(fs[i].1) == Failure(r.error) && Marshalable(fs[..i])
  {
    if |fs| == 0 then Success([])
    else match MarshalValue(fs[0].1)
      case Failure(e) =>
        assert Marshalable(fs[..0]);
        Failure(e)
      case Success(j) =>
        match MarshalFields(fs[1..])
        case Failure(e) =>
          assert exists i :: 0 <= i < |fs[1..]| && MarshalValue(fs[1..][i].1) == Failure(e) && Marshalable(fs[1..][..i]);
          var i :| 0 <= i < |fs[1..]| && MarshalValue(fs[1..][i].1) == Failure(e) && Marshalable(fs[1..][..i]);
          assert fs[..i + 1] == [fs[0]] + fs[1..][..i];
          assert MarshalValue(fs[i + 1].1) == Failure(e);
          Failure(e)
        case Success(js) =>
          Success([(fs[0].0, j)] + js)
  }

  /** The line one Print hands to the writer: the serialized record and one line break. */
  predicate IsLine(w: string) {
    |w| > 0 && w[|w| - 1] == '\n' && forall i :: 0 <= i < |w| - 1 ==> w[i] != '\n'
  }

  /** What a Print did: the text of each Write call it made, and the error it returned. */
  datatype PrintResult = PrintResult(writes: seq<string>, err: Option<PrintError>)

  /**
   Print: nothing at all when the entry ranks below the threshold; the marshal error and
   no write when a value cannot be serialized; otherwise exactly one write, of one line
   that reads back as the record's fields in order, and the writer's own error.
   */
  function Print(b: Builder, write: Writer): (r: PrintResult)
    ensures |r.writes| <= 1
    ensures !Levels.Passes(b.level, b.logger.minLevel) ==> r == PrintResult([], None)
    ensures Levels.Passes(b.level, b.logger.minLevel) && !Marshalable(b.fields) ==>
      r.writes == [] && r.err == Some(MarshalFields(b.fields).error) && r.err.value.MarshalFailed?
    ensures Levels.Passes(b.level, b.logger.minLevel) && Marshalable(b.fields) ==>
      && |r.writes| == 1
      && IsLine(r.writes[0])
      && DecodeDocument(r.writes[0]) == Some(MarshalFields(b.fields).value)
      && r.err == write(r.writes[0])
  {
    if Levels.Severity(b.level) < Levels.Severity(b.logger.minLevel) then PrintResult([], None)
    else match MarshalFields(b.fields)
      case Failure(e) => PrintResult([], Some(e))
      case Success(js) =>
        var data := EncodeObject(js) + ['\n'];
        LineOfObject(js);
        DocumentRoundTrip(js);
        PrintResult([data], write(data))
  }

  /** An encoded object followed by a line break is one line. */
  lemma LineOfObject(js: Fields)
    ensures IsLine(EncodeObject(js) + ['\n'])
  {
    ObjectIsPrintable(js);
  }

  /** Marshalling maps lookups through: a key's JSON value is its field value, marshalled. */
  lemma {:induction false} MarshalLookup(fs: Record<Value>, k: string)
    requires Marshalable(fs)
    ensures Lookup(MarshalFields(fs).value, k) ==
      match Get(fs, k)
      case None => None
      case Some(v) => Some(MarshalValue(v).value)
  {
    if |fs| > 0 {
      KeysCons(fs);
      assert Marshalable(fs[1..]) by {
        forall i | 0 <= i < |fs[1..]| ensures !fs[1..][i].1.Unsupported? {
          assert fs[1..][i] == fs[i + 1];
        }
      }
      MarshalLookup(fs[1..], k);
    }
  }

  /**
   Whenever Print writes, the `level` member of the line it writes holds the entry's level,
   as long as the caller has not replaced or removed the `level` field.
   */
  lemma PrintedLevel(b: Builder, write: Writer)
    requires Get(b.fields, "level") == Some(Str(b.level))
    requires |Print(b, write).writes| == 1
    ensures DecodeDocument(Print(b, write).writes[0]).Some?
    ensures Lookup(DecodeDocument(Print(b, write).writes[0]).value, "level") == Some(JStr(b.level))
  {
    MarshalLookup(b.fields, "level");
  }

  /** A suppressed entry leaves every writer untouched and reports no error, however often it is printed. */
  lemma SuppressedPrintIsSilent(b: Builder, w1: Writer, w2: Writer)
    requires Levels.Severity(b.level) < Levels.Severity(b.logger.minLevel)
    ensures Print(b, w1) == Print(b, w2) == PrintResult([], None)
  {
  }

  /** The filter comes first: a suppressed entry is not serialized, so even an unmarshalable value gives no error. */
  lemma SuppressionBeforeMarshal(b: Builder, write: Writer)
    requires !Marshalable(b.fields)
    ensures Print(b, write).err == None <==> !Levels.Passes(b.level, b.logger.minLevel)
  {
  }

  /** A default logger writes every entry its factories make, as long as the values marshal. */
  lemma DefaultLoggerWritesAll(level: Level, now: string, write: Writer)
    requires Levels.IsNamed(level)
    ensures |Print(NewBuilder(NewLogger([]), level, now), write).writes| == 1
  {
    var b := NewBuilder(NewLogger([]), level, now);
    assert b.fields == [("level", Str(level)), ("time", Time(now))];
  }
}
