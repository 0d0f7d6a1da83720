# argus, modelled in Dafny

A model of `argus.go`, the whole of the argus structured logger. The model covers:

- **Levels.** Four named tags ranked Debug 1 < Info 2 < Warn 3 < Error 4. Any other tag ranks 0.
- **Logger.** A logger holds a minimum level. It starts at Debug. `WithMinLevel` options are applied in order.
- **Builder.** An entry builder starts with the fields `level` and `time`. `Add` and `Remove` edit them, in an insertion-ordered record.
- **Print.** Print filters the entry by rank, then serializes the record as one JSON object. It hands that object and a line break to the writer in a single Write call and returns the writer's error.

The ordered map behind the builder (`narabi`) is modelled by the behaviour the logger relies on:

- setting a new key appends it;
- setting an existing key replaces its value where it stands;
- deleting a key removes that one entry.

The JSON that `json.Marshal` produces for such a record is modelled by an encoder and a reader that is proved to invert it. The encoder follows `encoding/json` as of Go 1.22, the first release that writes `\b` and `\f` in their short forms (earlier releases write `\u0008` and `\u000c`):

- strings get the escapes `\" \\ \b \f \n \r \t`; other control characters and `<`, `>`, `&` become `\u00XX`; U+2028 and U+2029 become `\u2028` and `\u2029`; hex digits are lower case;
- integers are written in decimal.

Two external effects are modelled as parameters:

- **The writer.** The logger's `io.Writer` is a parameter of `Print`: a function from the text of one Write call to the error it returns. `Print` returns the list of writes it made and its error.
- **The clock.** The builder factories take the clock reading `now`, already formatted as text.

Files and the modules they hold:

- `wrappers.dfy`: module `Wrappers`, the `Option` and `Result` types.
- `levels.dfy`: module `Levels`, ranks and the threshold filter.
- `ordered_map.dfy`: module `OrderedMap`, the insertion-ordered record.
- `json_string.dfy`, `json_number.dfy`, `json_object.dfy`: modules `JsonString`, `JsonNumber` and `JsonObject`, the JSON encoding and its reader.
- `argus.dfy`: module `Argus`, the logger, the builder and Print.
- `entry_edits.dfy`: module `EntryEdits`, chains of `Add` and `Remove`.
- `argus_examples.dfy`: module `ArgusExamples`, the scenarios of `argus_test.go`, and module `ExampleLine`, the encoding of the example's output line.

`example/main.go` calls a `WithColor` option that `argus.go` does not define. The logger as written has no colour output and no Fatal level, so the model has none either.

## Model

| member | source | states |
|---|---|---|
| `Levels.Passes` | argus.go:115 | The filter of Print: an entry passes unless its level's rank is strictly below the threshold's rank (the comparison of `severity` values). |
| `Levels.Severity` | argus.go:20-33 | The rank is the 1-based position of the level in Debug, Info, Warn, Error; it is 0 exactly for tags outside those four. |
| `Levels.SeverityOrder` | argus.go:20-33 | Ranks strictly increase along Debug, Info, Warn, Error, and an unnamed tag ranks below every named level. |
| `Levels.SeverityValues` | argus.go:22-31 | The concrete ranks 1, 2, 3, 4 and 0 for any other tag. |
| `Levels.PassesIffRankAtLeast` | argus.go:115-117 | An entry is written exactly when the threshold's rank is at most the entry's rank; a level always passes itself. |
| `Levels.DebugThresholdPassesNamed` | argus.go:53-56 | Under the default threshold Debug, an entry passes exactly when its level is one of the four named ones. |
| `Levels.UnnamedThresholdPassesAll` | argus.go:115-117 | A threshold that is not a named level ranks 0 and lets every entry through. |
| `Levels.PassesMonotone` | argus.go:115-117 | Whatever passes a higher threshold passes a lower one. |
| `Argus.ApplyOption` | argus.go:45-49 | `WithMinLevel(level)` sets the logger's threshold to `level` and nothing else. |
| `Argus.ApplyOptions` | argus.go:57-59 | The options run one after another in the order given, each on the logger the previous one left. |
| `Argus.LastOptionWins` | argus.go:45-59 | Applying options in order leaves the threshold of the last option, or the starting one when there are none. |
| `Argus.NewLogger` | argus.go:52-61 | With no options the threshold is Debug; otherwise it is the level of the last option. |
| `Argus.NewBuilder` | argus.go:70-79 | A fresh entry keeps its logger and level and has exactly the fields `level` (the level) and `time` (the clock reading), in that order. |
| `Argus.NewBuilderSpec` | argus.go:76-77 | A fresh entry's record holds each key once and maps `level` to the level and `time` to the clock reading. |
| `Argus.AddToNew` | argus.go:76-77 | A key other than `level` and `time` added to a fresh entry becomes the third field, after both. |
| `Argus.Info` | argus.go:82-84 | The entry is bound to the logger, has level INFO, and its fields are `level` = "INFO" then `time`. |
| `Argus.Warn` | argus.go:87-89 | The same for WARN. |
| `Argus.Error` | argus.go:92-94 | The same for ERROR. |
| `Argus.Debug` | argus.go:97-99 | The same for DEBUG. |
| `Argus.Add` | argus.go:102-105 | Add keeps the logger and level; the keys are unchanged when the key was present, otherwise the key is appended last. |
| `Argus.AddSpec` | argus.go:102-105 | On a well-formed record, Add keeps it well formed, stores the value under the key and leaves every other key's value alone. |
| `Argus.Remove` | argus.go:108-111 | Remove keeps the logger and level, the keys become the old keys without this one in their order, and removing an absent key changes nothing. |
| `Argus.RemoveSpec` | argus.go:108-111 | On a well-formed record, Remove keeps it well formed, drops the key and leaves every other key's value alone. |
| `Argus.MarshalValue` | argus.go:118 | A field value serializes as `json.Marshal` writes it: a string or a formatted time as a JSON string, an integer as a number, a boolean as `true`/`false`; serialization fails exactly for a value `json.Marshal` refuses, with a marshal error. |
| `Argus.MarshalFields` | argus.go:118-121 | Serialization succeeds exactly when every value is serializable, and then maps field i to member i with the same key; on failure, the error is that of the first value that cannot be serialized. |
| `Argus.Print` | argus.go:114-125 | At most one write. Below the threshold: no write and no error. A value that cannot be serialized: no write, and the error is the marshal error of the first such value. Otherwise: one write of a single line that reads back as the record's members in order, and the writer's error is returned unchanged. |
| `Argus.LineOfObject` | argus.go:122 | The serialized object with its line break contains exactly one line break, at the end. |
| `Argus.MarshalLookup` | argus.go:118 | Looking a key up in the serialized members gives the serialized value of that key's field, or nothing when the key is absent. |
| `Argus.PrintedLevel` | argus_test.go:82-90 | When Print writes and `level` still holds the entry's level, the written line decodes and its `level` member is the entry's level. |
| `Argus.SuppressedPrintIsSilent` | argus.go:115-117 | A suppressed entry gives no write and no error whatever the writer. |
| `Argus.SuppressionBeforeMarshal` | argus.go:115-121 | The filter runs before serialization: with an unserializable value, Print reports no error exactly when the entry is suppressed. |
| `Argus.DefaultLoggerWritesAll` | argus.go:53-56 | A logger built without options writes every fresh entry whose level is a named level. |
| `OrderedMap.Set` | argus.go:103 | Setting a new key appends the pair at the end; the keys stay the same for an existing key and gain the new key last otherwise. |
| `OrderedMap.SetInPlace` | argus.go:103 | Setting an existing key replaces exactly the entry at its position; everything before and after is unchanged. |
| `OrderedMap.SetValid` | argus.go:103 | Set keeps every key unique. |
| `OrderedMap.SetAt` | argus.go:103 | After Set, each position holds either the old entry or the written pair. |
| `OrderedMap.SetGet` | argus.go:103 | After Set, the key reads back the new value and every other key reads back its old value. |
| `OrderedMap.Delete` | argus.go:109 | The keys after Delete are the old keys without this one, in their order; deleting an absent key leaves the record as it was. |
| `OrderedMap.DeleteExactlyOne` | argus.go:109 | Deleting a present key of a well-formed record removes exactly the entry at its position. |
| `OrderedMap.DeleteSpec` | argus.go:109 | Delete keeps keys unique, the key reads back nothing, and every other key reads back its old value. |
| `OrderedMap.ReAddMovesToEnd` | argus.go:102-111 | A key removed and then added again goes after every remaining key. |
| `EntryEdits.EditsKeepEntry` | argus.go:102-111 | Any chain of Add and Remove keeps the logger and level and keeps the keys unique. |
| `EntryEdits.EditsDetermineFields` | argus.go:102-111 | After any chain of edits, a key holds the value of the last edit that names it: the added value, nothing if removed, or its original value if no edit names it. |
| `EntryEdits.EditsDetermineOrder` | argus.go:102-111 | After any chain of edits, the record's keys are in the order computed from the keys alone: a key added for the first time goes last, a key added again stays where it is, a removed key drops out, so a key removed and re-added moves to the end. |
| `EntryEdits.EditsDetermineKeys` | argus.go:102-111 | A key is present after the edits exactly when its last edit added it, or no edit named it and it was present before. |
| `JsonString.EscapeChar` | argus.go:118 | One character as `encoding/json` (Go 1.22) writes it with HTML escaping: `"` and `\` get a backslash, the short forms `\b \f \n \r \t`, `\u` and four lower-case hex digits for other control characters, `<`, `>`, `&`, U+2028 and U+2029, and the character itself otherwise. |
| `JsonString.Hex4RoundTrip` | argus.go:118 | The four hex digits of a `\u` escape read back as the code. |
| `JsonString.EscapeCharRoundTrip` | argus.go:118 | Each escaped character reads back as itself, whatever follows it. |
| `JsonString.EscapeRoundTrip` | argus.go:118 | An escaped string body followed by a quote reads back as the string, and reading stops right after the quote. |
| `JsonString.QuoteRoundTrip` | argus.go:118 | A string literal reads back as its text and leaves what follows untouched. |
| `JsonString.EscapeIsPrintable` | argus.go:118-122 | An escaped string contains no character below space, so no line break. |
| `JsonString.QuotePlain` | argus.go:118 | A string of characters that need no escaping is written as itself between quotes. |
| `JsonNumber.IntText` | argus.go:118 | An integer is written in decimal without leading zeros, with a leading `-` when negative. |
| `JsonNumber.IntRoundTrip` | argus.go:118 | An integer's decimal text reads back as the integer when no digit follows it. |
| `JsonObject.EncodeObject` | argus.go:118 | The record is written as `{`, its members `"key":value` separated by commas in the record's order, and `}`, with no whitespace. |
| `JsonObject.MembersRoundTrip` | argus.go:118 | A non-empty member list with its closing brace reads back as the same members in the same order. |
| `JsonObject.ObjectRoundTrip` | argus.go:118 | Any encoded object reads back as its members, in order, and leaves what follows untouched. |
| `JsonObject.DocumentRoundTrip` | argus_test.go:83 | The written line, an object and a line break, decodes as a whole document to the object's members. |
| `JsonObject.ObjectIsPrintable` | argus.go:118-122 | An encoded object contains no character below space, so the line break added by Print is its only one. |
| `ArgusExamples.ExampleEntry` | argus_test.go:15 | `Info().Remove("time").Add("key", "value")` on a default logger leaves the fields `level` = "INFO" then `key` = "value". |
| `ArgusExamples.ExampleBuilderPrint` | argus_test.go:13-17 | That entry prints exactly `{"level":"INFO","key":"value"}` and a line break, in one write, with no error. |
| `ExampleLine.ExampleEncoding` | argus_test.go:16 | The example's two members encode character for character as the expected output. |
| `ArgusExamples.Row` | argus_test.go:72-73 | A table row's entry has the row's level and threshold and the fields `level`, `time`, `message`, in that order. |
| `ArgusExamples.SuppressedRows` | argus_test.go:27-65 | The three rows whose level ranks below the threshold write nothing and report no error. |
| `ArgusExamples.PassingRow` | argus_test.go:68-91 | A row whose level passes writes one line with no error, and the decoded `level` member is the row's level. |
| `ArgusExamples.WrittenRows` | argus_test.go:33-59 | The three rows expecting output each write a line that decodes, with `level` WARN, ERROR and DEBUG respectively. |

## Left out

- Real I/O. The writer is a function from text to an error. Short writes, retries and the byte count that Write returns are not modelled; Print ignores that count anyway.
- The UTF-8 encoding of the written line. Strings are sequences of Unicode characters, and Write receives the line as that text. Go hands Write the UTF-8 bytes, whose length and content differ for non-ASCII text. The line still holds exactly one line break, at the end, since UTF-8 never encodes another character with the byte of `\n`.
- Time formatting. `time.Now()` is the `now` parameter, already formatted. `time.Time` values marshal as that text. The marshal error Go raises for years outside 0..9999 is not modelled.
- The generality of `json.Marshal`. Values are a closed set: strings, integers, booleans, timestamps, and an `Unsupported` kind that stands for any value Marshal rejects, such as a channel or a function. Floats, nil, nested maps and slices, custom marshallers and invalid UTF-8 are not modelled.
- Argus.MarshalFields: the failure case states only that the error is the first failing field's. Go wraps errors from custom marshallers in a `MarshalerError`; that wrapping is not modelled.
- The internals of `narabi`. Its Set, Delete and JSON output are modelled by the contract stated above. That Set replaces an existing key in place, rather than moving it to the end, is an assumption about narabi, which is not part of this model.
- Concurrency. Goroutines sharing a logger and interleaved writes to a shared writer are not modelled. The model is sequential.
- Colour output and the Fatal level. `argus.go` has neither, although `example/main.go` refers to `WithColor`.
- Open options. Go's `Option` is any `func(*Logger)`. A nil option panics in NewLogger, and an option other than `WithMinLevel` could leave the threshold alone, so that the last `WithMinLevel` rather than the last option sets it. The model has `WithMinLevel` as its only option.
- Shared loggers. A builder holds a pointer to its logger, so applying `WithMinLevel(x)` to that logger after the builder exists changes the threshold the builder's Print sees. The model copies the logger into the builder by value.
- Aliasing of the builder. `Add` and `Remove` mutate the builder in place and return it. The model returns a new value, which is the same thing for a chain of calls on one builder.
- Argus.Print: Go's `json.Marshal` output is modelled for the values above only. The object text is proved to decode back to the members rather than compared with Go's bytes for every input; the one concrete comparison is the example line.
