/**
 The scenarios of argus_test.go, stated over the model: the exact line of the Print
 example, and the threshold table of TestWithMinLevelCases. The writer is an in-memory
 buffer, whose writes never fail.
 */
module ArgusExamples {
  import opened Wrappers
  import opened JsonString
  import opened JsonObject
  import Levels
  import OrderedMap
  import opened Argus
  import ExampleLine

  function Buffer(): Writer {
    (data: string) => None
  }

  /** A default logger's Info entry. */
  lemma DefaultInfoEntry(now: string)
    ensures Info(NewLogger([]), now) == Builder(Logger(Levels.Debug), Levels.Info, [("level", Str("INFO")), ("time", Time(now))])
  {
    assert NewLogger([]) == Logger(Levels.Debug);
  }

  /** Removing the last of two fields leaves the first. */
  lemma DeleteSecond<V>(a: (string, V), b: (string, V))
    requires a.0 != b.0
    ensures OrderedMap.Delete([a, b], b.0) == [a]
  {
    var m := [a, b];
    assert m[1..] == [b];
    assert m[1..][1..] == [];
  }

  /** Setting a second key appends it. */
  lemma SetSecond<V>(a: (string, V), b: (string, V))
    requires a.0 != b.0
    ensures OrderedMap.Set([a], b.0, b.1) == [a, b]
  {
    assert OrderedMap.Keys([a]) == [a.0];
  }

  /** The entry of the example: `level` kept, `time` removed, `key` appended. */
  lemma ExampleEntry(now: string)
    ensures Add(Remove(Info(NewLogger([]), now), "time"), "key", Str("value"))
      == Builder(Logger(Levels.Debug), Levels.Info, [("level", Str("INFO")), ("key", Str("value"))])
  {
    DefaultInfoEntry(now);
    DeleteSecond(("level", Str("INFO")), ("time", Time(now)));
    SetSecond(("level", Str("INFO")), ("key", Str("value")));
  }

  /** Two string fields marshal to two string members. */
  lemma MarshalTwoStrings(k1: string, v1: string, k2: string, v2: string)
    ensures MarshalFields([(k1, Str(v1)), (k2, Str(v2))]).Success?
    ensures MarshalFields([(k1, Str(v1)), (k2, Str(v2))]).value == [(k1, JStr(v1)), (k2, JStr(v2))]
  {
    var fs := [(k1, Str(v1)), (k2, Str(v2))];
    assert !fs[0].1.Unsupported? && !fs[1].1.Unsupported?;
    var r := MarshalFields(fs);
    assert r.value[0] == (k1, JStr(v1)) && r.value[1] == (k2, JStr(v2));
  }

  /** A passing entry whose fields marshal writes its encoded object and a line break, once. */
  lemma PrintWrites(b: Builder, js: Fields, write: Writer)
    requires Levels.Passes(b.level, b.logger.minLevel)
    requires MarshalFields(b.fields).Success? && MarshalFields(b.fields).value == js
    ensures Print(b, write) == PrintResult([EncodeObject(js) + ['\n']], write(EncodeObject(js) + ['\n']))
  {
  }

  /** `NewLogger(os.Stdout).Info().Remove("time").Add("key", "value").Print()` writes exactly this line. */
  lemma ExampleBuilderPrint(now: string)
    ensures Print(Add(Remove(Info(NewLogger([]), now), "time"), "key", Str("value")), Buffer())
      == PrintResult(["{\"level\":\"INFO\",\"key\":\"value\"}\n"], None)
  {
    var b := Builder(Logger(Levels.Debug), Levels.Info, [("level", Str("INFO")), ("key", Str("value"))]);
    var js := [("level", JStr("INFO")), ("key", JStr("value"))];
    ExampleEntry(now);
    Levels.SeverityValues("");
    assert Levels.Passes(b.level, b.logger.minLevel);
    MarshalTwoStrings("level", "INFO", "key", "value");
    PrintWrites(b, js, Buffer());
    ExampleLine.ExampleLineText();
  }

  /** The entry of one table row: the level's factory, then `Add("message", text)`. */
  function Row(minLevel: Levels.Level, level: Levels.Level, text: string, now: string): (b: Builder)
    ensures b.level == level && b.logger.minLevel == minLevel
    ensures b.fields == [("level", Str(level)), ("time", Time(now)), ("message", Str(text))]
  {
    var logger := NewLogger([WithMinLevel(minLevel)]);
    assert |"message"| != |"level"| && |"message"| != |"time"|;
    AddToNew(logger, level, now, "message", Str(text));
    Add(NewBuilder(logger, level, now), "message", Str(text))
  }

  /** The rows expecting no output write nothing and report no error. */
  lemma SuppressedRows(now: string)
    ensures Print(Row(Levels.Warn, Levels.Info, "should be ignored", now), Buffer()) == PrintResult([], None)
    ensures Print(Row(Levels.Info, Levels.Debug, "should be ignored", now), Buffer()) == PrintResult([], None)
    ensures Print(Row(Levels.Error, Levels.Warn, "should be ignored", now), Buffer()) == PrintResult([], None)
  {
    Levels.SeverityValues("");
  }

  /**
   A row whose level passes its threshold writes one line whose `level` member is the
   entry's level, with no error.
   */
  lemma PassingRow(minLevel: Levels.Level, level: Levels.Level, text: string, now: string)
    requires Levels.Passes(level, minLevel)
    ensures |Print(Row(minLevel, level, text, now), Buffer()).writes| == 1
    ensures Print(Row(minLevel, level, text, now), Buffer()).err == None
    ensures Lookup(DecodeDocument(Print(Row(minLevel, level, text, now), Buffer()).writes[0]).value, "level")
      == Some(JStr(level))
  {
    var b := Row(minLevel, level, text, now);
    assert !b.fields[0].1.Unsupported? && !b.fields[1].1.Unsupported? && !b.fields[2].1.Unsupported?;
    assert Marshalable(b.fields);
    assert OrderedMap.Get(b.fields, "level") == Some(Str(level));
    PrintedLevel(b, Buffer());
  }

  /** The written line of a row, read back. */
  function RowLine(minLevel: Levels.Level, level: Levels.Level, now: string): Option<Fields> {
    var w := Print(Row(minLevel, level, "logged", now), Buffer()).writes;
    if |w| == 1 then DecodeDocument(w[0]) else None
  }

  /** A passing row's written line reads back, with the row's level under `level`. */
  lemma RowLineLevel(minLevel: Levels.Level, level: Levels.Level, now: string)
    requires Levels.Passes(level, minLevel)
    ensures RowLine(minLevel, level, now).Some?
    ensures Lookup(RowLine(minLevel, level, now).value, "level") == Some(JStr(level))
  {
    PassingRow(minLevel, level, "logged", now);
  }

  /** The rows of the table that expect output each write one line, whose `level` reads back as the entry's. */
  lemma WrittenRows(now: string)
    ensures RowLine(Levels.Warn, Levels.Warn, now).Some?
    ensures Lookup(RowLine(Levels.Warn, Levels.Warn, now).value, "level") == Some(JStr("WARN"))
    ensures RowLine(Levels.Error, Levels.Error, now).Some?
    ensures Lookup(RowLine(Levels.Error, Levels.Error, now).value, "level") == Some(JStr("ERROR"))
    ensures RowLine(Levels.Debug, Levels.Debug, now).Some?
    ensures Lookup(RowLine(Levels.Debug, Levels.Debug, now).value, "level") == Some(JStr("DEBUG"))
  {
    Levels.PassesIffRankAtLeast(Levels.Warn, Levels.Warn);
    RowLineLevel(Levels.Warn, Levels.Warn, now);
    Levels.PassesIffRankAtLeast(Levels.Error, Levels.Error);
    RowLineLevel(Levels.Error, Levels.Error, now);
    Levels.PassesIffRankAtLeast(Levels.Debug, Levels.Debug);
    RowLineLevel(Levels.Debug, Levels.Debug, now);
  }
}

/** The encoding half of the Print example, kept apart from the logger. */
module ExampleLine {
  import opened JsonString
  import opened JsonObject

  /** A member whose key and string value need no escaping. */
  lemma PlainMember(k: string, v: string)
    requires AllPlain(k) && AllPlain(v)
    ensures EncodeMember((k, JStr(v))) == ['"'] + k + ['"', ':', '"'] + v + ['"']
  {
    QuotePlain(k);
    QuotePlain(v);
  }

  /** An object of two members is the two members between braces, comma-separated. */
  lemma TwoMembers(a: (string, Json), b: (string, Json))
    ensures EncodeObject([a, b]) == ['{'] + EncodeMember(a) + [','] + EncodeMember(b) + ['}']
  {
    var js := [a, b];
    assert js[1..] == [b];
    assert EncodeMembers([b]) == EncodeMember(b);
    assert EncodeMembers(js) == EncodeMember(a) + [','] + EncodeMember(b);
  }

  predicate AllPlain(t: string) {
    forall i :: 0 <= i < |t| ==> IsPlain(t[i])
  }

  /** Two string members whose text needs no escaping encode character for character. */
  lemma TwoPlainMembers(k1: string, v1: string, k2: string, v2: string)
    requires AllPlain(k1) && AllPlain(v1) && AllPlain(k2) && AllPlain(v2)
    ensures EncodeObject([(k1, JStr(v1)), (k2, JStr(v2))])
      == ['{'] + (['"'] + k1 + ['"', ':', '"'] + v1 + ['"']) + [',']
        + (['"'] + k2 + ['"', ':', '"'] + v2 + ['"']) + ['}']
  {
    TwoMembers((k1, JStr(v1)), (k2, JStr(v2)));
    PlainMember(k1, v1);
    PlainMember(k2, v2);
  }

  /** The example's members encode to the line of the example. */
  lemma ExampleEncoding()
    ensures EncodeObject([("level", JStr("INFO")), ("key", JStr("value"))]) == "{\"level\":\"INFO\",\"key\":\"value\"}"
  {
    TwoPlainMembers("level", "INFO", "key", "value");
    ExampleText();
  }

  /** With its line break, the line Print hands to the writer. */
  lemma ExampleLineText()
    ensures EncodeObject([("level", JStr("INFO")), ("key", JStr("value"))]) + ['\n']
      == "{\"level\":\"INFO\",\"key\":\"value\"}\n"
  {
    ExampleEncoding();
  }

  lemma ExampleText()
    ensures ['{'] + (['"'] + "level" + ['"', ':', '"'] + "INFO" + ['"']) + [',']
      + (['"'] + "key" + ['"', ':', '"'] + "value" + ['"']) + ['}']
      == "{\"level\":\"INFO\",\"key\":\"value\"}"
  {
  }
}
