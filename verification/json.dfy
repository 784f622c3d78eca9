/**
 * The JSON text the metadata store writes for arrays and objects and reads back,
 * standing for PHP's `json_encode` and `json_decode($text, true)` on the subset of
 * JSON that the values of PhpValues can produce: `null`, strings, arrays written as
 * lists `[...]` and as objects `{...}`, with insignificant whitespace allowed between
 * tokens when reading. Decoding is associative: JSON objects come back as PHP
 * arrays, never as objects.
 */
module Json {

  import opened Options
  import opened PhpValues

  // ---------------------------------------------------------------- writing

  /** The text `json_encode` writes for a value. */
  function Encode(v: Value): (r: string)
    ensures |r| > 0 && (r[0] == 'n' || r[0] == '"' || r[0] == '[' || r[0] == '{')
    decreases v, 1
  {
    match v
    case Null => "null"
    case Str(s) => Quote(s)
    case Arr(es) =>
      // a list array is written as a JSON list, every other array as a JSON object
      if IsList(es) then "[" + EncodeElements(es) + "]" else "{" + EncodeMembers(es) + "}"
    case Obj(ps) => "{" + EncodeMembers(ps) + "}"
  }

  /** `"key":value` pairs separated by commas. */
  function EncodeMembers(es: seq<Entry>): string
    decreases es, 0
  {
    if es == [] then ""
    else
      Quote(es[0].key) + ":" + Encode(es[0].val)
      + (if |es| == 1 then "" else "," + EncodeMembers(es[1..]))
  }

  /** The values of a list, separated by commas. */
  function EncodeElements(es: seq<Entry>): string
    decreases es, 0
  {
    if es == [] then ""
    else Encode(es[0].val) + (if |es| == 1 then "" else "," + EncodeElements(es[1..]))
  }

  function Quote(s: string): string
  {
    "\"" + Escape(s) + "\""
  }

  function Escape(s: string): string
  {
    if s == [] then "" else EscapeChar(s[0]) + Escape(s[1..])
  }

  /**
   * How `json_encode` writes one character inside a string: quote, backslash and
   * slash are escaped, control characters get their short escape or `\u00XX`.
   */
  function EscapeChar(c: char): (r: string)
    ensures |r| > 0
  {
    if c == '"' then "\\\""
    else if c == '\\' then "\\\\"
    else if c == '/' then "\\/"
    else if c == '\U{8}' then "\\b"
    else if c == '\U{C}' then "\\f"
    else if c == '\n' then "\\n"
    else if c == '\r' then "\\r"
    else if c == '\t' then "\\t"
    else if (c as int) < 0x20 then "\\u00" + [HexDigit(c as int / 16), HexDigit(c as int % 16)]
    else [c]
  }

  function HexDigit(d: nat): char
    requires d < 16
  {
    if d < 10 then ('0' as int + d) as char else ('a' as int + d - 10) as char
  }

  // ---------------------------------------------------------------- reading

  predicate IsWs(c: char)
  {
    c == ' ' || c == '\t' || c == '\n' || c == '\r'
  }

  function SkipWs(s: string): (r: string)
    ensures |r| <= |s|
    ensures r == [] || !IsWs(r[0])
  {
    if |s| > 0 && IsWs(s[0]) then SkipWs(s[1..]) else s
  }

  function HexValue(c: char): (r: Option<nat>)
    ensures r.Some? ==> r.value < 16
  {
    if '0' <= c <= '9' then Some(c as int - '0' as int)
    else if 'a' <= c <= 'f' then Some(c as int - 'a' as int + 10)
    else if 'A' <= c <= 'F' then Some(c as int - 'A' as int + 10)
    else None
  }

  /**
   * The character an escape sequence stands for, `s` being the text after the
   * backslash, and the text after the escape. A `\u` escape naming half of a
   * surrogate pair is refused.
   */
  function Unescape(s: string): (r: Option<(char, string)>)
    ensures r.Some? ==> |r.value.1| < |s|
  {
    if |s| == 0 then None
    else if s[0] == '"' then Some(('"', s[1..]))
    else if s[0] == '\\' then Some(('\\', s[1..]))
    else if s[0] == '/' then Some(('/', s[1..]))
    else if s[0] == 'b' then Some(('\U{8}', s[1..]))
    else if s[0] == 'f' then Some(('\U{C}', s[1..]))
    else if s[0] == 'n' then Some(('\n', s[1..]))
    else if s[0] == 'r' then Some(('\r', s[1..]))
    else if s[0] == 't' then Some(('\t', s[1..]))
    else if s[0] == 'u' && |s| >= 5 then
      match (HexValue(s[1]), HexValue(s[2]), HexValue(s[3]), HexValue(s[4]))
      case (Some(a), Some(b), Some(c), Some(d)) =>
        var n := ((a * 16 + b) * 16 + c) * 16 + d;
        if n < 0xD800 || 0xE000 <= n then Some((n as char, s[5..])) else None
      case _ => None
    else None
  }

  /**
   * The characters of a string literal, `s` being the text after the opening
   * quote, and the text after the closing quote. Raw control characters are refused.
   */
  function ParseChars(s: string): (r: Option<(string, string)>)
    ensures r.Some? ==> |r.value.1| < |s|
    decreases |s|
  {
    if |s| == 0 then None
    else if s[0] == '"' then Some(([], s[1..]))
    else if s[0] == '\\' then
      match Unescape(s[1..])
      case None => None
      case Some((c, tail)) =>
        match ParseChars(tail)
        case None => None
        case Some((t, rest)) => Some(([c] + t, rest))
    else if (s[0] as int) < 0x20 then None
    else
      match ParseChars(s[1..])
      case None => None
      case Some((t, rest)) => Some(([s[0]] + t, rest))
  }

  /** One JSON value at the front of `s`, and the text after it. */
  function ParseValue(s: string): (r: Option<(Value, string)>)
    ensures r.Some? ==> |r.value.1| < |s| && ObjectFree(r.value.0)
    ensures r.Some? && r.value.0.Arr? ==> |SkipWs(s)| > 0 && (SkipWs(s)[0] == '{' || SkipWs(s)[0] == '[')
    decreases |s|, 0
  {
    var t := SkipWs(s);
    if |t| == 0 then None
    else if t[0] == 'n' then
      if |t| >= 4 && t[..4] == "null" then Some((Null, t[4..])) else None
    else if t[0] == '"' then
      match ParseChars(t[1..])
      case None => None
      case Some((str, rest)) => Some((Str(str), rest))
    else if t[0] == '{' then ParseObject(t[1..])
    else if t[0] == '[' then ParseList(t[1..])
    else None
  }

  /** A JSON object, `s` being the text after `{`; it becomes a PHP array. */
  function ParseObject(s: string): (r: Option<(Value, string)>)
    ensures r.Some? ==> |r.value.1| < |s| && ObjectFree(r.value.0)
    decreases |s|, 2
  {
    var t := SkipWs(s);
    if |t| > 0 && t[0] == '}' then Some((Arr([]), t[1..])) else ParseMembers(s, [])
  }

  /**
   * The members of a JSON object after those already read into `acc`. A key read
   * twice keeps its first position and takes the later value, as assigning into a
   * PHP array does.
   */
  function ParseMembers(s: string, acc: seq<Entry>): (r: Option<(Value, string)>)
    ensures r.Some? ==> |r.value.1| < |s|
    ensures r.Some? && (forall i :: 0 <= i < |acc| ==> ObjectFree(acc[i].val)) ==> ObjectFree(r.value.0)
    decreases |s|, 1
  {
    var t := SkipWs(s);
    if |t| == 0 || t[0] != '"' then None
    else
      match ParseChars(t[1..])
      case None => None
      case Some((k, afterKey)) => ParseMemberRest(k, afterKey, acc)
  }

  /** The rest of a member whose key `k` has been read: `:`, the value, then `,` or `}`. */
  function ParseMemberRest(k: string, s: string, acc: seq<Entry>): (r: Option<(Value, string)>)
    ensures r.Some? ==> |r.value.1| < |s|
    ensures r.Some? && (forall i :: 0 <= i < |acc| ==> ObjectFree(acc[i].val)) ==> ObjectFree(r.value.0)
    decreases |s|, 0
  {
    var u := SkipWs(s);
    if |u| == 0 || u[0] != ':' then None
    else
      match ParseValue(u[1..])
      case None => None
      case Some((v, afterValue)) =>
        var w := SkipWs(afterValue);
        var acc' := Assign(acc, k, v);
        if |w| > 0 && w[0] == ',' then ParseMembers(w[1..], acc')
        else if |w| > 0 && w[0] == '}' then Some((Arr(acc'), w[1..]))
        else None
  }

  /** A JSON list, `s` being the text after `[`; it becomes a PHP list array. */
  function ParseList(s: string): (r: Option<(Value, string)>)
    ensures r.Some? ==> |r.value.1| < |s| && ObjectFree(r.value.0)
    decreases |s|, 2
  {
    var t := SkipWs(s);
    if |t| > 0 && t[0] == ']' then Some((Arr([]), t[1..])) else ParseElements(s, [])
  }

  /** The elements of a JSON list after the |acc| already read; element i gets key i. */
  function ParseElements(s: string, acc: seq<Entry>): (r: Option<(Value, string)>)
    ensures r.Some? ==> |r.value.1| < |s|
    ensures r.Some? && (forall i :: 0 <= i < |acc| ==> ObjectFree(acc[i].val)) ==> ObjectFree(r.value.0)
    decreases |s|, 1
  {
    match ParseValue(s)
    case None => None
    case Some((v, afterValue)) =>
      var w := SkipWs(afterValue);
      var acc' := acc + [Entry(IntKey(|acc|), v)];
      if |w| > 0 && w[0] == ',' then ParseElements(w[1..], acc')
      else if |w| > 0 && w[0] == ']' then Some((Arr(acc'), w[1..]))
      else None
  }

  /**
   * `json_decode($text, true)` when it reports no error: the one value the whole
   * text holds, surrounded by nothing but whitespace. Decoding never yields an object.
   */
  function Decode(text: string): (r: Option<Value>)
    ensures r.Some? ==> ObjectFree(r.value)
    ensures r.Some? && r.value.Arr? ==> |SkipWs(text)| > 0 && (SkipWs(text)[0] == '{' || SkipWs(text)[0] == '[')
  {
    match ParseValue(text)
    case None => None
    case Some((v, rest)) => if SkipWs(rest) == [] then Some(v) else None
  }

  // ---------------------------------------------------------------- round trip

  lemma HexDigitValue(d: nat)
    requires d < 16
    ensures HexValue(HexDigit(d)) == Some(d)
  {
  }

  /** Reading one written character, followed by the rest of a string literal. */
  lemma ParseEscapedChar(c: char, tail: string)
    ensures ParseChars(EscapeChar(c) + tail) ==
      match ParseChars(tail)
      case None => None
      case Some((t, rest)) => Some(([c] + t, rest))
  {
    var s := EscapeChar(c) + tail;
    if c == '"' || c == '\\' || c == '/' || c == '\U{8}' || c == '\U{C}' || c == '\n' || c == '\r' || c == '\t' {
      assert s[0] == '\\';
      assert s[1..] == [EscapeChar(c)[1]] + tail;
    } else if (c as int) < 0x20 {
      var hi, lo := c as int / 16, c as int % 16;
      HexDigitValue(hi);
      HexDigitValue(lo);
      assert s[0] == '\\';
      assert s[1..] == "u00" + [HexDigit(hi), HexDigit(lo)] + tail;
      assert s[1..][5..] == tail;
      assert ((0 * 16 + 0) * 16 + hi) * 16 + lo == c as int;
    } else {
      assert s[0] == c && s[1..] == tail;
    }
  }

  /** Reading a written string literal gives the string back, whatever follows it. */
  lemma {:induction false} ParseEscaped(s: string, rest: string)
    ensures ParseChars(Escape(s) + "\"" + rest) == Some((s, rest))
  {
    if s == [] {
      assert Escape(s) + "\"" + rest == "\"" + rest;
    } else {
      ParseEscaped(s[1..], rest);
      ParseEscapedChar(s[0], Escape(s[1..]) + "\"" + rest);
      assert Escape(s) + "\"" + rest == EscapeChar(s[0]) + (Escape(s[1..]) + "\"" + rest);
      assert [s[0]] + s[1..] == s;
    }
  }

  /**
   * Reading the text written for a value gives back its associative form, and
   * leaves whatever followed the text untouched.
   */
  lemma {:induction false} ParseEncoded(v: Value, rest: string)
    requires WellFormed(v)
    ensures ParseValue(Encode(v) + rest) == Some((Assoc(v), rest))
    decreases v, 2
  {
    match v
    case Null =>
      ParseNull(rest);
    case Str(str) =>
      ParseString(str, rest);
    case Arr(es) =>
      if IsList(es) {
        ParseEncodedList(es, rest);
      } else {
        ParseEncodedObject(es, rest);
      }
    case Obj(ps) =>
      ParseEncodedObject(ps, rest);
  }

  lemma ParseNull(rest: string)
    ensures ParseValue("null" + rest) == Some((Null, rest))
  {
    var s := "null" + rest;
    assert SkipWs(s) == s;
    assert s[..4] == "null" && s[4..] == rest;
  }

  lemma ParseString(str: string, rest: string)
    ensures ParseValue(Quote(str) + rest) == Some((Str(str), rest))
  {
    var s := Quote(str) + rest;
    assert s == "\"" + (Escape(str) + "\"" + rest);
    assert SkipWs(s) == s;
    ParseEscaped(str, rest);
    assert s[1..] == Escape(str) + "\"" + rest;
  }

  lemma {:induction false} ParseEncodedObject(es: seq<Entry>, rest: string)
    requires DistinctKeys(es) && forall i :: 0 <= i < |es| ==> WellFormed(es[i].val)
    ensures ParseValue("{" + EncodeMembers(es) + "}" + rest) == Some((Arr(AssocEntries(es)), rest))
    decreases es, 2
  {
    var body := EncodeMembers(es) + "}" + rest;
    assert "{" + EncodeMembers(es) + "}" + rest == ['{'] + body;
    ParseOpening('{', body);
    if es == [] {
      assert body == "}" + rest;
      assert SkipWs(body) == body;
    } else {
      assert body[0] == '"';
      assert SkipWs(body) == body;
      ParseEncodedMembers(es, [], rest);
      assert [] + AssocEntries(es) == AssocEntries(es);
    }
  }

  lemma {:induction false} ParseEncodedList(es: seq<Entry>, rest: string)
    requires IsList(es) && forall i :: 0 <= i < |es| ==> WellFormed(es[i].val)
    ensures ParseValue("[" + EncodeElements(es) + "]" + rest) == Some((Arr(AssocEntries(es)), rest))
    decreases es, 2
  {
    var body := EncodeElements(es) + "]" + rest;
    assert "[" + EncodeElements(es) + "]" + rest == ['['] + body;
    ParseOpening('[', body);
    if es == [] {
      assert body == "]" + rest;
      assert SkipWs(body) == body;
    } else {
      assert body[0] == Encode(es[0].val)[0];
      assert SkipWs(body) == body;
      ParseEncodedElements(es, [], rest);
      assert [] + AssocEntries(es) == AssocEntries(es);
    }
  }

  /** An opening brace or bracket hands the rest of the text to the object or list reader. */
  lemma ParseOpening(c: char, body: string)
    requires c == '{' || c == '['
    ensures ParseValue([c] + body) == if c == '{' then ParseObject(body) else ParseList(body)
  {
    var s := [c] + body;
    assert SkipWs(s) == s;
    assert s[1..] == body;
  }

  /** Reading one written `"key":value` member, whatever follows it. */
  lemma {:induction false} ParseMember(k: string, v: Value, after: string, acc: seq<Entry>)
    requires WellFormed(v)
    ensures ParseMembers(Quote(k) + ":" + Encode(v) + after, acc) ==
      var w := SkipWs(after);
      var acc' := Assign(acc, k, Assoc(v));
      if |w| > 0 && w[0] == ',' then ParseMembers(w[1..], acc')
      else if |w| > 0 && w[0] == '}' then Some((Arr(acc'), w[1..]))
      else None
    decreases v, 4
  {
    var afterKey := ":" + Encode(v) + after;
    assert Quote(k) + ":" + Encode(v) + after == Quote(k) + afterKey;
    ParseMemberKey(k, afterKey, acc);
    ParseMemberValue(k, v, after, acc);
  }

  /** Reading a written key hands the text after its closing quote to ParseMemberRest. */
  lemma ParseMemberKey(k: string, afterKey: string, acc: seq<Entry>)
    ensures ParseMembers(Quote(k) + afterKey, acc) == ParseMemberRest(k, afterKey, acc)
  {
    var s := Quote(k) + afterKey;
    assert s == "\"" + (Escape(k) + "\"" + afterKey);
    assert SkipWs(s) == s;
    assert s[1..] == Escape(k) + "\"" + afterKey;
    ParseEscaped(k, afterKey);
  }

  /** Reading `:` and a written value, whatever follows it. */
  lemma {:induction false} ParseMemberValue(k: string, v: Value, after: string, acc: seq<Entry>)
    requires WellFormed(v)
    ensures ParseMemberRest(k, ":" + Encode(v) + after, acc) ==
      var w := SkipWs(after);
      var acc' := Assign(acc, k, Assoc(v));
      if |w| > 0 && w[0] == ',' then ParseMembers(w[1..], acc')
      else if |w| > 0 && w[0] == '}' then Some((Arr(acc'), w[1..]))
      else None
    decreases v, 3
  {
    var afterKey := ":" + Encode(v) + after;
    assert SkipWs(afterKey) == afterKey;
    assert afterKey[1..] == Encode(v) + after;
    ParseEncoded(v, after);
  }

  /** Reading the first of several written members. */
  lemma {:induction false} ParseMembersCons(es: seq<Entry>, acc: seq<Entry>, rest: string)
    requires |es| > 1 && WellFormed(es[0].val)
    ensures ParseMembers(EncodeMembers(es) + "}" + rest, acc) ==
      ParseMembers(EncodeMembers(es[1..]) + "}" + rest, Assign(acc, es[0].key, Assoc(es[0].val)))
    decreases es, 0
  {
    var tailText := EncodeMembers(es[1..]) + "}" + rest;
    var after := "," + tailText;
    var first := Quote(es[0].key) + ":" + Encode(es[0].val);
    assert EncodeMembers(es) == first + ("," + EncodeMembers(es[1..]));
    assert EncodeMembers(es) + "}" + rest == first + after;
    ParseMember(es[0].key, es[0].val, after, acc);
    assert SkipWs(after) == after;
    assert after[1..] == tailText;
  }

  /** Reading the last written member and the closing brace. */
  lemma {:induction false} ParseMembersLast(e: Entry, acc: seq<Entry>, rest: string)
    requires WellFormed(e.val)
    ensures ParseMembers(EncodeMembers([e]) + "}" + rest, acc) ==
      Some((Arr(Assign(acc, e.key, Assoc(e.val))), rest))
    decreases e, 1
  {
    var after := "}" + rest;
    assert EncodeMembers([e]) + "}" + rest == Quote(e.key) + ":" + Encode(e.val) + after;
    ParseMember(e.key, e.val, after, acc);
    assert SkipWs(after) == after;
    assert after[1..] == rest;
  }

  lemma {:induction false} ParseEncodedMembers(es: seq<Entry>, acc: seq<Entry>, rest: string)
    requires es != [] && DistinctKeys(es) && Keys(acc) !! Keys(es)
    requires forall i :: 0 <= i < |es| ==> WellFormed(es[i].val)
    ensures ParseMembers(EncodeMembers(es) + "}" + rest, acc) == Some((Arr(acc + AssocEntries(es)), rest))
    decreases es, 1
  {
    var e, tail := es[0], es[1..];
    var x := Entry(e.key, Assoc(e.val));
    assert Assign(acc, e.key, Assoc(e.val)) == acc + [x];
    assert AssocEntries(es) == [x] + AssocEntries(tail);
    AppendCons(acc, x, AssocEntries(tail));
    if |es| == 1 {
      assert es == [e];
      ParseMembersLast(e, acc, rest);
      assert AssocEntries(tail) == [];
      assert (acc + [x]) + [] == acc + [x];
    } else {
      ParseMembersCons(es, acc, rest);
      AssignKeys(acc, e.key, Assoc(e.val));
      ParseEncodedMembers(tail, acc + [x], rest);
    }
  }

  /** Reading one written list element, whatever follows it. */
  lemma {:induction false} ParseElement(v: Value, after: string, acc: seq<Entry>)
    requires WellFormed(v)
    ensures ParseElements(Encode(v) + after, acc) ==
      var w := SkipWs(after);
      var acc' := acc + [Entry(IntKey(|acc|), Assoc(v))];
      if |w| > 0 && w[0] == ',' then ParseElements(w[1..], acc')
      else if |w| > 0 && w[0] == ']' then Some((Arr(acc'), w[1..]))
      else None
    decreases v, 3
  {
    ParseEncoded(v, after);
  }

  /** Reading the first of several written list elements. */
  lemma {:induction false} ParseElementsCons(es: seq<Entry>, acc: seq<Entry>, rest: string)
    requires |es| > 1 && WellFormed(es[0].val)
    ensures ParseElements(EncodeElements(es) + "]" + rest, acc) ==
      ParseElements(EncodeElements(es[1..]) + "]" + rest, acc + [Entry(IntKey(|acc|), Assoc(es[0].val))])
    decreases es, 0
  {
    var tailText := EncodeElements(es[1..]) + "]" + rest;
    var after := "," + tailText;
    assert EncodeElements(es) == Encode(es[0].val) + ("," + EncodeElements(es[1..]));
    assert EncodeElements(es) + "]" + rest == Encode(es[0].val) + after;
    ParseElement(es[0].val, after, acc);
    assert SkipWs(after) == after;
    assert after[1..] == tailText;
  }

  /** Reading the last written list element and the closing bracket. */
  lemma {:induction false} ParseElementsLast(e: Entry, acc: seq<Entry>, rest: string)
    requires WellFormed(e.val)
    ensures ParseElements(EncodeElements([e]) + "]" + rest, acc) ==
      Some((Arr(acc + [Entry(IntKey(|acc|), Assoc(e.val))]), rest))
    decreases e, 1
  {
    var after := "]" + rest;
    assert EncodeElements([e]) + "]" + rest == Encode(e.val) + after;
    ParseElement(e.val, after, acc);
    assert SkipWs(after) == after;
    assert after[1..] == rest;
  }

  lemma {:induction false} ParseEncodedElements(es: seq<Entry>, acc: seq<Entry>, rest: string)
    requires es != [] && IsListFrom(es, |acc|)
    requires forall i :: 0 <= i < |es| ==> WellFormed(es[i].val)
    ensures ParseElements(EncodeElements(es) + "]" + rest, acc) == Some((Arr(acc + AssocEntries(es)), rest))
    decreases es, 1
  {
    var e, tail := es[0], es[1..];
    assert e.key == IntKey(|acc|);
    var x := Entry(e.key, Assoc(e.val));
    assert AssocEntries(es) == [x] + AssocEntries(tail);
    AppendCons(acc, x, AssocEntries(tail));
    if |es| == 1 {
      assert es == [e];
      ParseElementsLast(e, acc, rest);
      assert AssocEntries(tail) == [];
      assert (acc + [x]) + [] == acc + [x];
    } else {
      ParseElementsCons(es, acc, rest);
      assert IsListFrom(tail, |acc| + 1) by {
        forall i | 0 <= i < |tail| ensures tail[i].key == IntKey(|acc| + 1 + i) {
          assert tail[i] == es[i + 1];
        }
      }
      ParseEncodedElements(tail, acc + [x], rest);
    }
  }

  lemma AppendCons<T>(a: seq<T>, x: T, t: seq<T>)
    ensures (a + [x]) + t == a + ([x] + t)
  {
  }

  /**
   * `json_decode(json_encode($v), true)` gives back `$v` with its objects turned
   * into arrays; for a value without objects, exactly `$v`.
   */
  lemma DecodeEncode(v: Value)
    requires WellFormed(v)
    ensures Decode(Encode(v)) == Some(Assoc(v))
  {
    ParseEncoded(v, []);
    assert Encode(v) + [] == Encode(v);
  }

}
