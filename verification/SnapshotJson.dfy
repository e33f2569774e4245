/**
 data.json of the backup (server/src/backup/snapshot-zip.ts): `snapshotJson` streams the export
 one top-level key at a time. The concatenated chunks are what JSON.stringify of the whole
 snapshot would print, and the JSON text reads back to the same members in the same order
 (sections 2 to 7 of RFC 8259).

 Text is a sequence of Unicode scalar values. A number is its own text: how a double is printed
 and read belongs to the JavaScript engine.
 */
module SnapshotJson {
  import opened Characters
  import opened Options
  import opened Sequences

  datatype Json =
    | Null
    | Bool(value: bool)
    | Num(text: string)
    | Str(content: string)
    | Arr(items: seq<Json>)
    | Obj(members: seq<(string, Json)>)

  // ---------------------------------------------------------------- characters

  predicate IsNumberChar(c: char) {
    IsDigit(c) || c in "+-.eE"
  }

  predicate IsSpace(c: char) {
    c in " \t\n\r"
  }

  function SkipSpace(s: string): (t: string)
    ensures |t| <= |s|
    ensures t != [] ==> !IsSpace(t[0])
  {
    if s != [] && IsSpace(s[0]) then SkipSpace(s[1..]) else s
  }

  function SkipDigits(s: string): string {
    if s != [] && IsDigit(s[0]) then SkipDigits(s[1..]) else s
  }

  predicate StartsWithDigit(s: string) {
    s != [] && IsDigit(s[0])
  }

  /** The number grammar of section 6 of RFC 8259. */
  predicate IsNumber(s: string) {
    && (forall c :: c in s ==> IsNumberChar(c))
    && var unsigned := if s != [] && s[0] == '-' then s[1..] else s;
       && StartsWithDigit(unsigned)
       && var afterInt := if unsigned[0] == '0' then unsigned[1..] else SkipDigits(unsigned);
          && (afterInt != [] && afterInt[0] == '.' ==> StartsWithDigit(afterInt[1..]))
          && var afterFrac := if afterInt != [] && afterInt[0] == '.' then SkipDigits(afterInt[1..]) else afterInt;
             && (afterFrac != [] ==>
                   && afterFrac[0] in "eE"
                   && var exp := if |afterFrac| > 1 && afterFrac[1] in "+-" then afterFrac[2..] else afterFrac[1..];
                      StartsWithDigit(exp) && SkipDigits(exp) == [])
  }

  function HexValue(c: char): Option<int> {
    if IsHexChar(c) then Some(HexDigitValue(c))
    else if 'A' <= c <= 'F' then Some(c as int - 'A' as int + 10)
    else None
  }

  // ---------------------------------------------------------------- JSON.stringify

  /** One character of QuoteJSONString (section 25.5.2.3 of ECMA-262). */
  function Escape(c: char): string {
    if c == '"' then "\\\""
    else if c == '\\' then "\\\\"
    else if c as int == 8 then "\\b"
    else if c as int == 12 then "\\f"
    else if c == '\n' then "\\n"
    else if c == '\r' then "\\r"
    else if c == '\t' then "\\t"
    else if c as int < 0x20 then "\\u00" + [HexChar(c as int / 16), HexChar(c as int % 16)]
    else [c]
  }

  function EscapeAll(s: string): string {
    if s == [] then [] else Escape(s[0]) + EscapeAll(s[1..])
  }

  function Quote(s: string): string {
    "\"" + EscapeAll(s) + "\""
  }

  function Print(v: Json): string
    decreases v, 0
  {
    match v
    case Null => "null"
    case Bool(b) => if b then "true" else "false"
    case Num(text) => text
    case Str(content) => Quote(content)
    case Arr(items) => "[" + (if items == [] then "]" else Print(items[0]) + PrintItems(items[1..]))
    case Obj(members) =>
      "{" + (if members == [] then "}" else PrintMember(members[0]) + PrintMembers(members[1..]))
  }

  /** The rest of an array, each item after a comma, up to the bracket. */
  function PrintItems(items: seq<Json>): string
    decreases items, 0
  {
    if items == [] then "]" else "," + Print(items[0]) + PrintItems(items[1..])
  }

  function PrintMember(m: (string, Json)): string
    decreases m, 1
  {
    Quote(m.0) + ":" + Print(m.1)
  }

  function PrintMembers(members: seq<(string, Json)>): string
    decreases members, 2
  {
    if members == [] then "}" else "," + PrintMember(members[0]) + PrintMembers(members[1..])
  }

  // ---------------------------------------------------------------- JSON.parse

  datatype Parsed<+T> = Ok(value: T, rest: string) | Fail

  /** The characters of a string after its opening quote, up to and with the closing one. */
  function ParseChars(s: string): (r: Parsed<string>)
    ensures r.Ok? ==> |r.rest| < |s|
  {
    if s == [] then Fail
    else if s[0] == '"' then Ok("", s[1..])
    else
      var (c, rest) := if s[0] == '\\' then ParseEscape(s[1..]) else (Plain(s[0]), s[1..]);
      if c.None? || |rest| >= |s| then Fail
      else
        match ParseChars(rest)
        case Ok(tail, rest') => Ok([c.value] + tail, rest')
        case Fail => Fail
  }

  /** Control characters may not stand unescaped. */
  function Plain(c: char): Option<char> {
    if c as int < 0x20 then None else Some(c)
  }

  /** What follows a backslash. A surrogate half written as an escape is not a scalar value. */
  function ParseEscape(s: string): (r: (Option<char>, string))
    ensures |r.1| <= |s|
  {
    if s == [] then (None, s)
    else if s[0] in "\"\\/" then (Some(s[0]), s[1..])
    else if s[0] == 'b' then (Some(8 as char), s[1..])
    else if s[0] == 'f' then (Some(12 as char), s[1..])
    else if s[0] == 'n' then (Some('\n'), s[1..])
    else if s[0] == 'r' then (Some('\r'), s[1..])
    else if s[0] == 't' then (Some('\t'), s[1..])
    else if s[0] == 'u' && |s| >= 5 then (CodeUnit(s[1], s[2], s[3], s[4]), s[5..])
    else (None, s)
  }

  function CodeUnit(a: char, b: char, c: char, d: char): Option<char> {
    var (x, y, z, w) := (HexValue(a), HexValue(b), HexValue(c), HexValue(d));
    if x.None? || y.None? || z.None? || w.None? then None
    else
      var n := 4096 * x.value + 256 * y.value + 16 * z.value + w.value;
      if 0xD800 <= n < 0xE000 then None else Some(n as char)
  }

  /** How many leading characters may belong to a number. */
  function NumberRun(s: string): (n: nat)
    ensures n <= |s|
  {
    if s != [] && IsNumberChar(s[0]) then 1 + NumberRun(s[1..]) else 0
  }

  function ParseLiteral(s: string, word: string, v: Json): (r: Parsed<Json>)
    requires word != []
    ensures r.Ok? ==> |r.rest| < |s|
  {
    if word <= s then Ok(v, s[|word|..]) else Fail
  }

  function ParseValue(text: string): (r: Parsed<Json>)
    ensures r.Ok? ==> |r.rest| < |text|
    decreases |text|, 2
  {
    var s := SkipSpace(text);
    if s == [] then Fail
    else if s[0] == '"' then
      match ParseChars(s[1..])
      case Ok(content, rest) => Ok(Str(content), rest)
      case Fail => Fail
    else if s[0] == '[' then
      var t := SkipSpace(s[1..]);
      if t != [] && t[0] == ']' then Ok(Arr([]), t[1..])
      else
        match ParseItems(s[1..])
        case Ok(items, rest) => Ok(Arr(items), rest)
        case Fail => Fail
    else if s[0] == '{' then
      var t := SkipSpace(s[1..]);
      if t != [] && t[0] == '}' then Ok(Obj([]), t[1..])
      else
        match ParseMembers(s[1..])
        case Ok(members, rest) => Ok(Obj(members), rest)
        case Fail => Fail
    else if s[0] == 'n' then ParseLiteral(s, "null", Null)
    else if s[0] == 't' then ParseLiteral(s, "true", Bool(true))
    else if s[0] == 'f' then ParseLiteral(s, "false", Bool(false))
    else
      var n := NumberRun(s);
      if n > 0 && IsNumber(s[..n]) then Ok(Num(s[..n]), s[n..]) else Fail
  }

  function ParseItems(s: string): (r: Parsed<seq<Json>>)
    ensures r.Ok? ==> |r.rest| < |s|
    decreases |s|, 3
  {
    match ParseValue(s)
    case Fail => Fail
    case Ok(v, rest) =>
      var t := SkipSpace(rest);
      if t != [] && t[0] == ']' then Ok([v], t[1..])
      else if t != [] && t[0] == ',' then
        match ParseItems(t[1..])
        case Ok(items, rest') => Ok([v] + items, rest')
        case Fail => Fail
      else Fail
  }

  function ParseMembers(text: string): (r: Parsed<seq<(string, Json)>>)
    ensures r.Ok? ==> |r.rest| < |text|
    decreases |text|, 3
  {
    var s := SkipSpace(text);
    if s == [] || s[0] != '"' then Fail
    else
      match ParseChars(s[1..])
      case Fail => Fail
      case Ok(key, afterKey) =>
        var c := SkipSpace(afterKey);
        if c == [] || c[0] != ':' then Fail
        else
          match ParseValue(c[1..])
          case Fail => Fail
          case Ok(v, rest) =>
            var t := SkipSpace(rest);
            if t != [] && t[0] == '}' then Ok([(key, v)], t[1..])
            else if t != [] && t[0] == ',' then
              match ParseMembers(t[1..])
              case Ok(members, rest') => Ok([(key, v)] + members, rest')
              case Fail => Fail
            else Fail
  }

  /** JSON.parse of a whole text. */
  function Parse(text: string): Option<Json> {
    match ParseValue(text)
    case Ok(v, rest) => if SkipSpace(rest) == [] then Some(v) else None
    case Fail => None
  }

  // ---------------------------------------------------------------- print, then parse

  lemma EscapedCharReadsBack(body: string, c: char, tail: string)
    requires body != [] && ParseEscape(body + tail) == (Some(c), tail) && ParseChars(tail).Ok?
    ensures ParseChars(['\\'] + body + tail) == Ok([c] + ParseChars(tail).value, ParseChars(tail).rest)
  {
    hide ParseEscape;
    var s := ['\\'] + body + tail;
    assert s[1..] == body + tail;
  }

  lemma PlainCharReadsBack(c: char, tail: string)
    requires c as int >= 0x20 && c != '"' && c != '\\' && ParseChars(tail).Ok?
    ensures ParseChars([c] + tail) == Ok([c] + ParseChars(tail).value, ParseChars(tail).rest)
  {
    hide ParseEscape;
    assert ([c] + tail)[1..] == tail;
  }

  /** What follows the backslash in the escape of c. */
  lemma EscapeReadsBack(c: char, tail: string)
    requires Escape(c)[0] == '\\'
    ensures ParseEscape(Escape(c)[1..] + tail) == (Some(c), tail)
  {
    var body := Escape(c)[1..];
    if body[0] == 'u' {
      ControlReadsBack(c as int, tail);
      assert body == ['u', '0', '0', HexChar(c as int / 16), HexChar(c as int % 16)];
    } else {
      hide CodeUnit;
      assert (body + tail)[1..] == tail;
    }
  }

  lemma HexReadsBack(n: int)
    requires 0 <= n < 16
    ensures HexValue(HexChar(n)) == Some(n)
  {
  }

  lemma ControlReadsBack(n: int, tail: string)
    requires 0 <= n < 0x20
    ensures ParseEscape(['u', '0', '0', HexChar(n / 16), HexChar(n % 16)] + tail) == (Some(n as char), tail)
  {
    hide HexChar;
    hide HexValue;
    HexReadsBack(0);
    HexReadsBack(n / 16);
    HexReadsBack(n % 16);
    assert HexChar(0) == '0' by { ZeroDigit(); }
    var s := ['u', '0', '0', HexChar(n / 16), HexChar(n % 16)] + tail;
    assert s[5..] == tail;
    assert CodeUnit(s[1], s[2], s[3], s[4]) == Some(n as char);
  }

  lemma ZeroDigit()
    ensures HexChar(0) == '0'
  {
  }

  lemma OneCharReadsBack(c: char, tail: string)
    requires ParseChars(tail).Ok?
    ensures ParseChars(Escape(c) + tail) == Ok([c] + ParseChars(tail).value, ParseChars(tail).rest)
  {
    hide ParseChars;
    hide ParseEscape;
    if Escape(c)[0] == '\\' {
      EscapeReadsBack(c, tail);
      EscapedCharReadsBack(Escape(c)[1..], c, tail);
      assert ['\\'] + Escape(c)[1..] == Escape(c);
    } else {
      PlainCharReadsBack(c, tail);
    }
  }

  lemma {:induction false} CharsReadBack(content: string, rest: string)
    ensures ParseChars(EscapeAll(content) + "\"" + rest) == Ok(content, rest)
  {
    hide ParseEscape;
    hide Escape;
    var tail := "\"" + rest;
    if content == [] {
      assert EscapeAll(content) + "\"" + rest == tail;
      assert tail[1..] == rest;
    } else {
      var tail' := EscapeAll(content[1..]) + "\"" + rest;
      CharsReadBack(content[1..], rest);
      OneCharReadsBack(content[0], tail');
      assert EscapeAll(content) + "\"" + rest == Escape(content[0]) + tail';
      assert content == [content[0]] + content[1..];
    }
  }

  lemma {:induction false} RunOfNumber(text: string, rest: string)
    requires forall c :: c in text ==> IsNumberChar(c)
    requires rest == [] || !IsNumberChar(rest[0])
    ensures NumberRun(text + rest) == |text|
  {
    if text == [] {
      assert text + rest == rest;
    } else {
      RunOfNumber(text[1..], rest);
      assert (text + rest)[1..] == text[1..] + rest;
    }
  }

  /** Every number in the value is the text of a JSON number. */
  predicate Printable(v: Json) {
    match v
    case Num(text) => IsNumber(text)
    case Arr(items) => forall i :: 0 <= i < |items| ==> Printable(items[i])
    case Obj(members) => forall i :: 0 <= i < |members| ==> Printable(members[i].1)
    case _ => true
  }

  lemma LiteralReadsBack(word: string, rest: string)
    requires word in ["null", "true", "false"]
    ensures var v := if word == "null" then Null else Bool(word == "true");
            ParseValue(word + rest) == Ok(v, rest)
  {
    assert (word + rest)[|word|..] == rest;
    assert word <= word + rest;
  }

  lemma NumberReadsBack(text: string, rest: string)
    requires IsNumber(text) && (rest == [] || !IsNumberChar(rest[0]))
    ensures ParseValue(text + rest) == Ok(Num(text), rest)
  {
    RunOfNumber(text, rest);
    var s := text + rest;
    assert s[0] == text[0] && IsNumberChar(s[0]);
    assert s[..|text|] == text && s[|text|..] == rest;
  }

  lemma StringReadsBack(content: string, rest: string)
    ensures ParseValue(Quote(content) + rest) == Ok(Str(content), rest)
  {
    hide ParseChars;
    hide EscapeAll;
    hide ParseItems;
    hide ParseMembers;
    CharsReadBack(content, rest);
    assert (Quote(content) + rest)[1..] == EscapeAll(content) + "\"" + rest;
  }

  /** A bracket and its items make an array; a brace and its members make an object. */
  lemma ArrayReadsBack(items: seq<Json>, body: string, rest: string)
    requires body != [] && !IsSpace(body[0]) && body[0] != ']' && ParseItems(body) == Ok(items, rest)
    ensures ParseValue("[" + body) == Ok(Arr(items), rest)
  {
    hide ParseItems;
    hide ParseMembers;
    assert ("[" + body)[1..] == body && SkipSpace(body) == body;
  }

  lemma ObjectReadsBack(members: seq<(string, Json)>, body: string, rest: string)
    requires body != [] && !IsSpace(body[0]) && body[0] != '}' && ParseMembers(body) == Ok(members, rest)
    ensures ParseValue("{" + body) == Ok(Obj(members), rest)
  {
    hide ParseItems;
    hide ParseMembers;
    assert ("{" + body)[1..] == body && SkipSpace(body) == body;
  }

  lemma EmptyArrayReadsBack(rest: string)
    ensures ParseValue("[]" + rest) == Ok(Arr([]), rest)
  {
    hide ParseItems;
    hide ParseMembers;
    assert ("[]" + rest)[1..] == "]" + rest;
    assert ("]" + rest)[1..] == rest;
  }

  lemma EmptyObjectReadsBack(rest: string)
    ensures ParseValue("{}" + rest) == Ok(Obj([]), rest)
  {
    hide ParseItems;
    hide ParseMembers;
    assert ("{}" + rest)[1..] == "}" + rest;
    assert ("}" + rest)[1..] == rest;
  }

  lemma EmptyReadsBack(v: Json, rest: string)
    requires v == Arr([]) || v == Obj([])
    ensures ParseValue(Print(v) + rest) == Ok(v, rest)
  {
    hide ParseValue;
    EmptyArrayReadsBack(rest);
    EmptyObjectReadsBack(rest);
    assert Print(Arr([])) == "[]" && Print(Obj([])) == "{}";
  }

  /** No value starts like a space or a closing bracket. */
  lemma PrintStart(v: Json)
    requires Printable(v)
    ensures Print(v) != [] && !IsSpace(Print(v)[0]) && Print(v)[0] != ']'
  {
  }

  lemma PrintedArrayReadsBack(items: seq<Json>, rest: string)
    requires items != [] && Printable(items[0])
    requires ParseItems(Print(items[0]) + PrintItems(items[1..]) + rest) == Ok(items, rest)
    ensures ParseValue(Print(Arr(items)) + rest) == Ok(Arr(items), rest)
  {
    hide ParseValue;
    hide ParseItems;
    hide PrintItems;
    PrintStart(items[0]);
    var body := Print(items[0]) + PrintItems(items[1..]) + rest;
    ArrayReadsBack(items, body, rest);
    assert Print(Arr(items)) + rest == "[" + body;
  }

  lemma PrintedObjectReadsBack(members: seq<(string, Json)>, rest: string)
    requires members != []
    requires ParseMembers(PrintMember(members[0]) + PrintMembers(members[1..]) + rest) == Ok(members, rest)
    ensures ParseValue(Print(Obj(members)) + rest) == Ok(Obj(members), rest)
  {
    hide ParseValue;
    hide ParseMembers;
    hide PrintMembers;
    var body := PrintMember(members[0]) + PrintMembers(members[1..]) + rest;
    ObjectReadsBack(members, body, rest);
    assert Print(Obj(members)) + rest == "{" + body;
  }

  /** What is printed reads back, whatever follows it in the text. */
  lemma {:induction false} ValueReadsBack(v: Json, rest: string)
    requires Printable(v) && (rest == [] || !IsNumberChar(rest[0]))
    ensures ParseValue(Print(v) + rest) == Ok(v, rest)
    decreases v, 3
  {
    hide ParseValue;
    hide ParseItems;
    hide ParseMembers;
    match v
    case Null => LiteralReadsBack("null", rest);
    case Bool(b) => LiteralReadsBack(if b then "true" else "false", rest);
    case Num(text) => NumberReadsBack(text, rest);
    case Str(content) => StringReadsBack(content, rest);
    case Arr(items) =>
      if items == [] {
        EmptyReadsBack(v, rest);
      } else {
        ItemsReadBack(items, rest);
        PrintedArrayReadsBack(items, rest);
      }
    case Obj(members) =>
      if members == [] {
        EmptyReadsBack(v, rest);
      } else {
        MembersReadBack(members, rest);
        PrintedObjectReadsBack(members, rest);
      }
  }

  lemma LastItem(text: string, v: Json, after: string, rest: string)
    requires ParseValue(text) == Ok(v, after) && after == "]" + rest
    ensures ParseItems(text) == Ok([v], rest)
  {
    hide ParseValue;
    assert after[1..] == rest;
  }

  lemma NextItem(text: string, v: Json, after: string, items: seq<Json>, rest: string)
    requires ParseValue(text) == Ok(v, after) && after != [] && after[0] == ','
    requires ParseItems(after[1..]) == Ok(items, rest)
    ensures ParseItems(text) == Ok([v] + items, rest)
  {
    hide ParseValue;
  }

  lemma {:induction false} ItemsReadBack(items: seq<Json>, rest: string)
    requires items != [] && forall i :: 0 <= i < |items| ==> Printable(items[i])
    ensures ParseItems(Print(items[0]) + PrintItems(items[1..]) + rest) == Ok(items, rest)
    decreases items, 2
  {
    hide ParseValue;
    hide ParseItems;
    hide Print;
    var v, more := items[0], items[1..];
    var after := PrintItems(more) + rest;
    var text := Print(v) + PrintItems(more) + rest;
    assert text == Print(v) + after;
    ValueReadsBack(v, after);
    if more == [] {
      LastItem(text, v, after, rest);
      assert items == [v];
    } else {
      ItemsReadBack(more, rest);
      assert after[1..] == Print(more[0]) + PrintItems(more[1..]) + rest;
      NextItem(text, v, after, more, rest);
      assert items == [v] + more;
    }
  }

  lemma LastMember(text: string, key: string, afterKey: string, v: Json, after: string, rest: string)
    requires text != [] && text[0] == '"' && ParseChars(text[1..]) == Ok(key, afterKey)
    requires afterKey != [] && afterKey[0] == ':' && ParseValue(afterKey[1..]) == Ok(v, after)
    requires after == "}" + rest
    ensures ParseMembers(text) == Ok([(key, v)], rest)
  {
    hide ParseValue;
    hide ParseChars;
    assert after[1..] == rest;
  }

  lemma NextMember(text: string, key: string, afterKey: string, v: Json, after: string,
                   members: seq<(string, Json)>, rest: string)
    requires text != [] && text[0] == '"' && ParseChars(text[1..]) == Ok(key, afterKey)
    requires afterKey != [] && afterKey[0] == ':' && ParseValue(afterKey[1..]) == Ok(v, after)
    requires after != [] && after[0] == ',' && ParseMembers(after[1..]) == Ok(members, rest)
    ensures ParseMembers(text) == Ok([(key, v)] + members, rest)
  {
    hide ParseValue;
    hide ParseChars;
  }

  lemma {:induction false} MemberValueReadsBack(m: (string, Json), rest: string)
    requires Printable(m.1) && (rest == [] || !IsNumberChar(rest[0]))
    ensures ParseValue(Print(m.1) + rest) == Ok(m.1, rest)
    decreases m, 4
  {
    ValueReadsBack(m.1, rest);
  }

  /** Where a printed member's key ends and its value starts. */
  lemma MemberText(m: (string, Json), more: string, rest: string)
    ensures var afterKey, text := ":" + Print(m.1) + (more + rest), PrintMember(m) + more + rest;
            && text[0] == '"' && text[1..] == EscapeAll(m.0) + "\"" + afterKey
            && afterKey[1..] == Print(m.1) + (more + rest)
  {
    hide Print;
    hide EscapeAll;
    var afterKey := ":" + Print(m.1) + (more + rest);
    assert PrintMember(m) + more + rest == Quote(m.0) + afterKey;
    assert (Quote(m.0) + afterKey)[1..] == EscapeAll(m.0) + "\"" + afterKey;
  }

  lemma CommaMembers(more: seq<(string, Json)>, rest: string)
    requires more != []
    ensures PrintMembers(more) + rest == "," + (PrintMember(more[0]) + PrintMembers(more[1..]) + rest)
  {
    hide PrintMember;
  }

  /** What follows a member: the closing brace, or a comma and the other members. */
  lemma AfterMember(more: seq<(string, Json)>, rest: string)
    ensures var after := PrintMembers(more) + rest;
            && after != [] && !IsNumberChar(after[0])
            && (more == [] ==> after == "}" + rest)
            && (more != [] ==>
                  after[0] == ',' && after[1..] == PrintMember(more[0]) + PrintMembers(more[1..]) + rest)
  {
    if more != [] {
      hide PrintMember;
      hide PrintMembers;
      CommaMembers(more, rest);
    }
  }

  lemma {:induction false} MembersReadBack(members: seq<(string, Json)>, rest: string)
    requires members != [] && forall i :: 0 <= i < |members| ==> Printable(members[i].1)
    ensures ParseMembers(PrintMember(members[0]) + PrintMembers(members[1..]) + rest) == Ok(members, rest)
    decreases members, 2
  {
    hide ParseValue;
    hide ParseMembers;
    hide ParseChars;
    hide Print;
    hide EscapeAll;
    hide PrintMember;
    hide PrintMembers;
    var key, v, more := members[0].0, members[0].1, members[1..];
    var after := PrintMembers(more) + rest;
    var afterKey := ":" + Print(v) + after;
    var text := PrintMember(members[0]) + PrintMembers(more) + rest;
    CharsReadBack(key, afterKey);
    MemberText(members[0], PrintMembers(more), rest);
    AfterMember(more, rest);
    MemberValueReadsBack(members[0], after);
    if more == [] {
      LastMember(text, key, afterKey, v, after, rest);
      assert members == [(key, v)];
    } else {
      MembersReadBack(more, rest);
      NextMember(text, key, afterKey, v, after, more, rest);
      assert members == [(key, v)] + more;
    }
  }

  // ---------------------------------------------------------------- the streamed snapshot

  /** The members that JSON.stringify keeps: those whose value is not undefined. */
  function Defined(snapshot: seq<(string, Option<Json>)>): (members: seq<(string, Json)>) {
    if snapshot == [] then []
    else
      var last := Last(snapshot);
      Defined(Front(snapshot)) + (if last.1.Some? then [(last.0, last.1.value)] else [])
  }

  /** The members as the stream prints them: a comma before all but the first. */
  function Streamed(members: seq<(string, Json)>): string {
    if members == [] then []
    else
      var n := |members| - 1;
      Streamed(members[..n]) + (if n == 0 then "" else ",") + PrintMember(members[n])
  }

  lemma {:induction false} StreamedThen(head: (string, Json), members: seq<(string, Json)>, more: seq<(string, Json)>)
    ensures PrintMember(head) + PrintMembers(members + more) == Streamed([head] + members) + PrintMembers(more)
  {
    hide PrintMember;
    if members == [] {
      assert members + more == more && [head] + members == [head] && [head][..0] == [];
    } else {
      var n := |members| - 1;
      StreamedThen(head, members[..n], [members[n]] + more);
      assert members[..n] + ([members[n]] + more) == members + more;
      assert ([head] + members)[..n + 1] == [head] + members[..n];
      assert ([members[n]] + more)[1..] == more;
      assert Streamed([head] + members) == Streamed([head] + members[..n]) + "," + PrintMember(members[n]);
      assert PrintMembers([members[n]] + more) == "," + PrintMember(members[n]) + PrintMembers(more);
    }
  }

  lemma StreamedIsPrinted(members: seq<(string, Json)>)
    ensures "{" + Streamed(members) + "}" == Print(Obj(members))
  {
    hide PrintMember;
    if members != [] {
      StreamedThen(members[0], members[1..], []);
      assert members[1..] + [] == members[1..] && [members[0]] + members[1..] == members;
    }
  }

  lemma StreamedNext(members: seq<(string, Json)>, m: (string, Json))
    ensures Streamed(members + [m]) == Streamed(members) + ((if members == [] then "" else ",") + PrintMember(m))
  {
    hide PrintMember;
    assert (members + [m])[..|members|] == members;
  }

  lemma ConcatNext(chunks: seq<string>, chunk: string)
    ensures Concat(chunks + [chunk]) == Concat(chunks) + chunk
  {
    assert (chunks + [chunk])[..|chunks|] == chunks;
  }

  /** snapshotJson: the chunks the generator yields. */
  method SnapshotJson(snapshot: seq<(string, Option<Json>)>) returns (chunks: seq<string>)
    ensures Concat(chunks) == Print(Obj(Defined(snapshot)))
  {
    hide Print;
    hide Quote;
    var first := true;
    chunks := ["{"];
    assert ["{"][..0] == [];
    for i := 0 to |snapshot|
      invariant first <==> Defined(snapshot[..i]) == []
      invariant Concat(chunks) == "{" + Streamed(Defined(snapshot[..i]))
    {
      assert snapshot[..i + 1][..i] == snapshot[..i];
      var (key, value) := snapshot[i];
      if value.None? {
        assert Defined(snapshot[..i + 1]) == Defined(snapshot[..i]);
        continue;
      }
      var chunk := (if first then "" else ",") + Quote(key) + ":" + Print(value.value);
      StreamedNext(Defined(snapshot[..i]), (key, value.value));
      assert Defined(snapshot[..i + 1]) == Defined(snapshot[..i]) + [(key, value.value)];
      ghost var before := Streamed(Defined(snapshot[..i]));
      assert chunk == (if first then "" else ",") + PrintMember((key, value.value));
      assert Streamed(Defined(snapshot[..i + 1])) == before + chunk;
      ConcatNext(chunks, chunk);
      assert Concat(chunks + [chunk]) == "{" + before + chunk == "{" + (before + chunk);
      chunks := chunks + [chunk];
      first := false;
    }
    assert snapshot[..|snapshot|] == snapshot;
    ConcatNext(chunks, "}");
    chunks := chunks + ["}"];
    StreamedIsPrinted(Defined(snapshot));
  }

  ghost predicate AllPrintable(snapshot: seq<(string, Option<Json>)>) {
    forall i :: 0 <= i < |snapshot| && snapshot[i].1.Some? ==> Printable(snapshot[i].1.value)
  }

  lemma {:induction false} DefinedPrintable(snapshot: seq<(string, Option<Json>)>)
    requires AllPrintable(snapshot)
    ensures forall i :: 0 <= i < |Defined(snapshot)| ==> Printable(Defined(snapshot)[i].1)
  {
    if snapshot != [] {
      DefinedPrintable(Front(snapshot));
    }
  }

  /** What an import reads from an exported data.json: the same members in the same order. */
  lemma DataJsonReadsBack(snapshot: seq<(string, Option<Json>)>)
    requires AllPrintable(snapshot)
    ensures Parse(Print(Obj(Defined(snapshot)))) == Some(Obj(Defined(snapshot)))
  {
    DefinedPrintable(snapshot);
    var v := Obj(Defined(snapshot));
    ValueReadsBack(v, []);
    assert Print(v) + [] == Print(v);
  }

  lemma LastDefined(snapshot: seq<(string, Option<Json>)>)
    requires snapshot != []
    ensures var last := Last(snapshot);
            Defined(snapshot) ==
            Defined(Front(snapshot)) + (if last.1.Some? then [(last.0, last.1.value)] else [])
  {
  }

  /** Which members an export keeps: those with a value, null included, each once and in order. */
  lemma {:induction false} DefinedAt(snapshot: seq<(string, Option<Json>)>) returns (at: seq<nat>)
    ensures Ascending(at) && |at| == |Defined(snapshot)|
    ensures forall i: nat :: i in at <==> i < |snapshot| && snapshot[i].1.Some?
    ensures forall j :: 0 <= j < |at| ==>
              at[j] < |snapshot| && snapshot[at[j]] == (Defined(snapshot)[j].0, Some(Defined(snapshot)[j].1))
  {
    hide Ascending;
    at := [];
    if snapshot == [] {
      NothingAscends();
    } else {
      var n := |snapshot| - 1;
      var before := DefinedAt(Front(snapshot));
      hide Defined;
      LastDefined(snapshot);
      AscendingNext(before, n);
      at := if snapshot[n].1.Some? then before + [n] else before;
      forall i: nat ensures i in at <==> i < |snapshot| && snapshot[i].1.Some? {
        if i < n {
          assert Front(snapshot)[i] == snapshot[i];
        }
      }
      forall j | 0 <= j < |at|
        ensures at[j] < |snapshot| && snapshot[at[j]] == (Defined(snapshot)[j].0, Some(Defined(snapshot)[j].1))
      {
        if j < |before| {
          assert Front(snapshot)[before[j]] == snapshot[before[j]];
        }
      }
    }
  }

  /** The members that an import reads from the streamed text, by their places in the snapshot: all
      members whose value is not undefined, each once, in order. */
  lemma StreamReadsBack(snapshot: seq<(string, Option<Json>)>, chunks: seq<string>)
    returns (members: seq<(string, Json)>, at: seq<nat>)
    requires AllPrintable(snapshot) && Concat(chunks) == Print(Obj(Defined(snapshot)))
    ensures Parse(Concat(chunks)) == Some(Obj(members)) && |at| == |members|
    ensures forall i, j :: 0 <= i < j < |at| ==> at[i] < at[j]
    ensures forall i: nat :: i in at <==> i < |snapshot| && snapshot[i].1.Some?
    ensures forall j :: 0 <= j < |at| ==>
              at[j] < |snapshot| && snapshot[at[j]] == (members[j].0, Some(members[j].1))
  {
    hide Parse;
    hide Print;
    hide Defined;
    hide Concat;
    DataJsonReadsBack(snapshot);
    members := Defined(snapshot);
    at := DefinedAt(snapshot);
  }

  lemma NullMember()
    ensures PrintMember(("sa_cash_drawer", Null)) == "\"sa_cash_drawer\":null"
  {
    hide EscapeAll;
    NothingEscaped("sa_cash_drawer");
  }

  lemma OneMember(m: (string, Json))
    ensures Defined([(m.0, Some(m.1))]) == [m]
    ensures Print(Obj([m])) == "{" + PrintMember(m) + "}"
  {
    hide PrintMember;
    assert Front([(m.0, Some(m.1))]) == [] && [m][1..] == [];
    assert PrintMembers([]) == "}";
  }

  /** The text of an export while no shift is open. */
  lemma ClosedDrawer()
    ensures Print(Obj(Defined([("sa_cash_drawer", Some(Null))]))) == "{\"sa_cash_drawer\":null}"
  {
    hide PrintMember;
    hide Print;
    hide Defined;
    NullMember();
    OneMember(("sa_cash_drawer", Null));
  }

  /** The short escapes, and the long ones for the other control characters. */
  lemma EscapesAre(c: char)
    ensures Escape('"') == "\\\"" && Escape('\\') == "\\\\" && Escape('\n') == "\\n" && Escape('\r') == "\\r"
    ensures Escape('\t') == "\\t" && Escape(8 as char) == "\\b" && Escape(12 as char) == "\\f"
    ensures c as int < 0x20 && c as int !in {8, 9, 10, 12, 13} ==>
              Escape(c) == "\\u00" + ["01"[c as int / 16], "0123456789abcdef"[c as int % 16]]
  {
  }

  /** The words, the brackets and the commas. */
  lemma LiteralsAre(a: Json, b: Json, k: string)
    ensures Print(Null) == "null" && Print(Bool(true)) == "true" && Print(Bool(false)) == "false"
    ensures Print(Arr([a, b])) == "[" + Print(a) + "," + Print(b) + "]"
    ensures Print(Obj([(k, a), (k, b)])) == "{" + Quote(k) + ":" + Print(a) + "," + Quote(k) + ":" + Print(b) + "}"
  {
    hide Quote;
    TwoItems(a, b);
    TwoMembers((k, a), (k, b));
  }

  lemma OneItemLeft(b: Json)
    ensures PrintItems([b]) == "," + Print(b) + "]"
  {
    hide Print;
    assert [b][1..] == [];
    assert PrintItems([]) == "]";
  }

  lemma TwoItems(a: Json, b: Json)
    ensures Print(Arr([a, b])) == "[" + Print(a) + "," + Print(b) + "]"
  {
    hide PrintItems;
    OneItemLeft(b);
    assert [a, b][1..] == [b];
    assert Print(Arr([a, b])) == "[" + (Print(a) + PrintItems([b]));
  }

  lemma OneMemberLeft(b: (string, Json))
    ensures PrintMembers([b]) == "," + PrintMember(b) + "}"
  {
    hide PrintMember;
    assert [b][1..] == [];
    assert PrintMembers([]) == "}";
  }

  lemma TwoMembers(a: (string, Json), b: (string, Json))
    ensures Print(Obj([a, b])) == "{" + PrintMember(a) + "," + PrintMember(b) + "}"
  {
    hide PrintMember;
    hide PrintMembers;
    OneMemberLeft(b);
    assert [a, b][1..] == [b];
    assert Print(Obj([a, b])) == "{" + (PrintMember(a) + PrintMembers([b]));
  }

  /** Characters that may stand in a string stand there as they are. */
  lemma {:induction false} NothingEscaped(s: string)
    requires forall i :: 0 <= i < |s| ==> s[i] as int >= 0x20 && s[i] != '"' && s[i] != '\\'
    ensures EscapeAll(s) == s
  {
    if s != [] {
      NothingEscaped(s[1..]);
    }
  }
}
