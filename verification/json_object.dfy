/**
 The single-line JSON object a record is serialized to: `{"k1":v1,"k2":v2}`, keys in
 record order, no whitespace, as json.Marshal writes an ordered map. The reader plays
 the part of json.Unmarshal in the tests: it reads one object and allows only
 whitespace after it.
 */
module JsonObject {
  import opened Wrappers
  import opened JsonString
  import opened JsonNumber

  /** The JSON values the logger's field values turn into. */
  datatype Json = JStr(s: string) | JNum(n: int) | JBool(b: bool)

  type Fields = seq<(string, Json)>

  function EncodeValue(j: Json): string {
    match j
    case JStr(s) => Quote(s)
    case JNum(n) => IntText(n)
    case JBool(b) => if b then "true" else "false"
  }

  function EncodeMember(f: (string, Json)): string {
    Quote(f.0) + [':'] + EncodeValue(f.1)
  }

  /** Members separated by commas. */
  function EncodeMembers(fs: Fields): string {
    if |fs| == 0 then []
    else if |fs| == 1 then EncodeMember(fs[0])
    else EncodeMember(fs[0]) + [','] + EncodeMembers(fs[1..])
  }

  function EncodeObject(fs: Fields): string {
    ['{'] + EncodeMembers(fs) + ['}']
  }

  predicate StartsWith(s: string, p: string) {
    |p| <= |s| && s[..|p|] == p
  }

  function ParseValue(s: string): (r: Option<(Json, string)>)
    ensures r.Some? ==> |r.value.1| < |s|
  {
    if |s| > 0 && s[0] == '"' then
      match ParseString(s)
      case Some((t, rest)) => Some((JStr(t), rest))
      case None => None
    else if StartsWith(s, "true") then Some((JBool(true), s[4..]))
    else if StartsWith(s, "false") then Some((JBool(false), s[5..]))
    else match ParseInt(s)
      case Some((n, rest)) => Some((JNum(n), rest))
      case None => None
  }

  function ParseMember(s: string): (r: Option<((string, Json), string)>)
    ensures r.Some? ==> |r.value.1| < |s|
  {
    match ParseString(s)
    case None => None
    case Some((k, rest)) =>
      if |rest| > 0 && rest[0] == ':' then
        match ParseValue(rest[1..])
        case Some((v, rest')) => Some(((k, v), rest'))
        case None => None
      else None
  }

  /** Reads members up to and including the closing brace. */
  function ParseMembers(s: string): (r: Option<(Fields, string)>)
    ensures r.Some? ==> |r.value.1| < |s|
    decreases |s|
  {
    match ParseMember(s)
    case None => None
    case Some((f, rest)) =>
      if |rest| > 0 && rest[0] == '}' then Some(([f], rest[1..]))
      else if |rest| > 0 && rest[0] == ',' then
        match ParseMembers(rest[1..])
        case Some((fs, rest')) => Some(([f] + fs, rest'))
        case None => None
      else None
  }

  /** Reads one object at the start of `s`. */
  function ParseObject(s: string): (r: Option<(Fields, string)>)
    ensures r.Some? ==> |r.value.1| < |s|
  {
    if |s| == 0 || s[0] != '{' then None
    else if |s| > 1 && s[1] == '}' then Some(([], s[2..]))
    else ParseMembers(s[1..])
  }

  predicate IsWhitespace(c: char) {
    c == ' ' || c == '\t' || c == '\n' || c == '\r'
  }

  /** Reads a whole document holding one object and nothing after it but whitespace. */
  function DecodeDocument(s: string): Option<Fields> {
    match ParseObject(s)
    case Some((fs, rest)) =>
      if forall i :: 0 <= i < |rest| ==> IsWhitespace(rest[i]) then Some(fs) else None
    case None => None
  }

  /** The value of the first member named `k`. */
  function Lookup(fs: Fields, k: string): Option<Json> {
    if |fs| == 0 then None
    else if fs[0].0 == k then Some(fs[0].1)
    else Lookup(fs[1..], k)
  }

  /** A string value reads back as itself, whatever follows it. */
  lemma StrRoundTrip(t: string, rest: string)
    ensures ParseValue(Quote(t) + rest) == Some((JStr(t), rest))
  {
    QuoteRoundTrip(t, rest);
    assert (Quote(t) + rest)[0] == '"';
  }

  /** A number reads back as itself when a non-digit follows it. */
  lemma NumRoundTrip(n: int, rest: string)
    requires |rest| > 0 && !IsDigit(rest[0])
    ensures ParseValue(IntText(n) + rest) == Some((JNum(n), rest))
  {
    var s := IntText(n) + rest;
    IntRoundTrip(n, rest);
    IntTextShape(n);
    assert s[0] == IntText(n)[0];
  }

  lemma BoolRoundTrip(b: bool, rest: string)
    ensures ParseValue(EncodeValue(JBool(b)) + rest) == Some((JBool(b), rest))
  {
    var s := EncodeValue(JBool(b)) + rest;
    if b {
      assert s[..4] == "true";
      assert s[4..] == rest;
    } else {
      assert s[..4] != "true" by { assert s[0] == 'f'; }
      assert s[..5] == "false";
      assert s[5..] == rest;
    }
  }

  /** A value reads back as itself when a separator or closing brace follows it. */
  lemma ValueRoundTrip(j: Json, rest: string)
    requires |rest| > 0 && (rest[0] == ',' || rest[0] == '}')
    ensures ParseValue(EncodeValue(j) + rest) == Some((j, rest))
  {
    match j {
      case JStr(t) => StrRoundTrip(t, rest);
      case JNum(n) => NumRoundTrip(n, rest);
      case JBool(b) => BoolRoundTrip(b, rest);
    }
  }

  /** How ParseMember combines a key, a colon and a value. */
  lemma MemberStep(s: string, k: string, tail: string, v: Json, rest: string)
    requires ParseString(s) == Some((k, tail))
    requires |tail| > 0 && tail[0] == ':'
    requires ParseValue(tail[1..]) == Some((v, rest))
    ensures ParseMember(s) == Some(((k, v), rest))
  {
  }

  lemma MemberSplit(f: (string, Json), rest: string)
    ensures EncodeMember(f) + rest == Quote(f.0) + ([':'] + (EncodeValue(f.1) + rest))
  {
  }

  lemma MemberRoundTrip(f: (string, Json), rest: string)
    requires |rest| > 0 && (rest[0] == ',' || rest[0] == '}')
    ensures ParseMember(EncodeMember(f) + rest) == Some((f, rest))
  {
    var value := EncodeValue(f.1) + rest;
    var tail := [':'] + value;
    MemberSplit(f, rest);
    QuoteRoundTrip(f.0, tail);
    assert tail[1..] == value;
    ValueRoundTrip(f.1, rest);
    MemberStep(EncodeMember(f) + rest, f.0, tail, f.1, rest);
  }

  /** How ParseMembers ends at a closing brace. */
  lemma MembersCloseStep(s: string, f: (string, Json), rest: string)
    requires ParseMember(s) == Some((f, ['}'] + rest))
    ensures ParseMembers(s) == Some(([f], rest))
  {
    assert (['}'] + rest)[1..] == rest;
  }

  /** How ParseMembers goes on after a comma. */
  lemma MembersCommaStep(s: string, f: (string, Json), tail: string, fs: Fields, rest: string)
    requires ParseMember(s) == Some((f, [','] + tail))
    requires ParseMembers(tail) == Some((fs, rest))
    ensures ParseMembers(s) == Some(([f] + fs, rest))
  {
    assert ([','] + tail)[1..] == tail;
  }

  lemma Regroup(a: string, b: string, rest: string)
    ensures a + [','] + b + ['}'] + rest == a + ([','] + (b + ['}'] + rest))
  {
  }

  lemma Regroup1(a: string, rest: string)
    ensures a + ['}'] + rest == a + (['}'] + rest)
  {
  }

  lemma MembersSplit(fs: Fields, rest: string)
    requires |fs| > 1
    ensures EncodeMembers(fs) + ['}'] + rest
         == EncodeMember(fs[0]) + ([','] + (EncodeMembers(fs[1..]) + ['}'] + rest))
  {
    var a, b := EncodeMember(fs[0]), EncodeMembers(fs[1..]);
    assert EncodeMembers(fs) == a + [','] + b;
    Regroup(a, b, rest);
  }

  /** A non-empty member list reads back as itself, through the closing brace. */
  lemma {:induction false} MembersRoundTrip(fs: Fields, rest: string)
    requires |fs| > 0
    ensures ParseMembers(EncodeMembers(fs) + ['}'] + rest) == Some((fs, rest))
  {
    if |fs| == 1 {
      var after := ['}'] + rest;
      assert EncodeMembers(fs) == EncodeMember(fs[0]);
      Regroup1(EncodeMember(fs[0]), rest);
      MemberRoundTrip(fs[0], after);
      MembersCloseStep(EncodeMember(fs[0]) + after, fs[0], rest);
      assert [fs[0]] == fs;
    } else {
      var tail := EncodeMembers(fs[1..]) + ['}'] + rest;
      var after := [','] + tail;
      MembersSplit(fs, rest);
      MemberRoundTrip(fs[0], after);
      MembersRoundTrip(fs[1..], rest);
      MembersCommaStep(EncodeMember(fs[0]) + after, fs[0], tail, fs[1..], rest);
      assert [fs[0]] + fs[1..] == fs;
    }
  }

  /** An encoded object reads back as the same members, in the same order. */
  lemma ObjectRoundTrip(fs: Fields, rest: string)
    ensures ParseObject(EncodeObject(fs) + rest) == Some((fs, rest))
  {
    var s := EncodeObject(fs) + rest;
    if |fs| == 0 {
      assert s == ['{', '}'] + rest;
      assert s[2..] == rest;
    } else {
      var m := EncodeMembers(fs);
      var body := m + ['}'] + rest;
      assert s == ['{'] + body;
      assert s[1..] == body;
      MembersStartWithQuote(fs);
      assert s[1] == m[0];
      MembersRoundTrip(fs, rest);
    }
  }

  lemma MembersStartWithQuote(fs: Fields)
    requires |fs| > 0
    ensures |EncodeMembers(fs)| > 0 && EncodeMembers(fs)[0] == '"'
  {
    var a := EncodeMember(fs[0]);
    assert a[0] == '"';
    if |fs| == 1 {
      assert EncodeMembers(fs) == a;
    } else {
      assert EncodeMembers(fs) == a + [','] + EncodeMembers(fs[1..]);
    }
  }

  /** A document of one encoded object and a line break decodes to that object's members. */
  lemma DocumentRoundTrip(fs: Fields)
    ensures DecodeDocument(EncodeObject(fs) + ['\n']) == Some(fs)
  {
    ObjectRoundTrip(fs, ['\n']);
  }

  /** No character below space appears in an encoded value. */
  lemma ValueIsPrintable(j: Json)
    ensures forall i :: 0 <= i < |EncodeValue(j)| ==> EncodeValue(j)[i] >= ' '
  {
    match j
    case JStr(t) =>
      EscapeIsPrintable(t);
    case JNum(n) =>
      IntTextShape(n);
    case JBool(b) =>
  }

  lemma MemberIsPrintable(f: (string, Json))
    ensures forall i :: 0 <= i < |EncodeMember(f)| ==> EncodeMember(f)[i] >= ' '
  {
    EscapeIsPrintable(f.0);
    ValueIsPrintable(f.1);
  }

  /** An encoded object holds no control character, so it is a single line. */
  lemma {:induction false} ObjectIsPrintable(fs: Fields)
    ensures forall i :: 0 <= i < |EncodeObject(fs)| ==> EncodeObject(fs)[i] >= ' '
  {
    MembersArePrintable(fs);
  }

  lemma {:induction false} MembersArePrintable(fs: Fields)
    ensures forall i :: 0 <= i < |EncodeMembers(fs)| ==> EncodeMembers(fs)[i] >= ' '
  {
    if |fs| == 1 {
      MemberIsPrintable(fs[0]);
    } else if |fs| > 1 {
      MemberIsPrintable(fs[0]);
      MembersArePrintable(fs[1..]);
    }
  }
}
