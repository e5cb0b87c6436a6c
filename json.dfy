/**
 * The JSON text of one flat object, as `JSONObject.toString` writes it and
 * `new JSONObject(text)` reads it: string, integer, boolean and null
 * members, string escaping as `JSONObject.quote` does it, whitespace
 * skipped between tokens, duplicate keys refused. Lookup by key does not
 * depend on the order the members were written in.
 */
module Json {
  import opened Wrappers
  import opened JavaLang

  datatype Value = JString(str: string) | JNumber(num: int) | JBool(b: bool) | JNull

  type Member = (string, Value)

  // -----------------------------------------------------------------------
  // Writing
  // -----------------------------------------------------------------------

  function HexDigit(d: nat): (c: char)
    requires d < 16
  {
    if d < 10 then DigitChar(d) else (d - 10 + 'a' as int) as char
  }

  /** Four lower-case hex digits, as `Integer.toHexString` left-padded with zeros. */
  function Hex4(n: nat): (s: string)
    requires n < 0x1_0000
    ensures |s| == 4
  {
    [HexDigit(n / 16 / 16 / 16), HexDigit(n / 16 / 16 % 16), HexDigit(n / 16 % 16), HexDigit(n % 16)]
  }

  /** Characters `quote` writes as a \u escape. */
  predicate NeedsUnicodeEscape(c: char)
  {
    c < ' ' || ('\U{80}' <= c < '\U{A0}') || ('\U{2000}' <= c < '\U{2100}')
  }

  /** How `quote` writes `c` when the character before it was `prev`. */
  function EscapeChar(prev: char, c: char): string
  {
    if c == '\\' || c == '"' then ['\\', c]
    else if c == '/' then (if prev == '<' then "\\/" else "/")
    else if c == '\U{8}' then "\\b"
    else if c == '\t' then "\\t"
    else if c == '\n' then "\\n"
    else if c == '\U{C}' then "\\f"
    else if c == '\r' then "\\r"
    else if NeedsUnicodeEscape(c) then "\\u" + Hex4(c as int)
    else [c]
  }

  function Escape(s: string, prev: char): string
  {
    if |s| == 0 then "" else EscapeChar(prev, s[0]) + Escape(s[1..], s[0])
  }

  /** `JSONObject.quote`: the escaped text between double quotes. */
  function Quote(s: string): string
  {
    "\"" + Escape(s, '\0') + "\""
  }

  function EncodeValue(v: Value): string
  {
    match v
    case JString(s) => Quote(s)
    case JNumber(n) => IntToString(n)
    case JBool(b) => if b then "true" else "false"
    case JNull => "null"
  }

  function EncodeMember(m: Member): string
  {
    Quote(m.0) + ":" + EncodeValue(m.1)
  }

  function EncodeMembers(ms: seq<Member>): string
  {
    if |ms| == 0 then ""
    else if |ms| == 1 then EncodeMember(ms[0])
    else EncodeMember(ms[0]) + "," + EncodeMembers(ms[1..])
  }

  /** `JSONObject.toString`: members in the given order, no whitespace. */
  function EncodeObject(ms: seq<Member>): string
  {
    "{" + EncodeMembers(ms) + "}"
  }

  // -----------------------------------------------------------------------
  // Reading
  // -----------------------------------------------------------------------

  /** What the tokenizer skips between tokens: every character from U+0001 to the space. */
  predicate IsWhitespace(c: char)
  {
    '\U{1}' <= c <= ' '
  }

  function SkipWs(s: string): (r: string)
    ensures |r| <= |s|
  {
    if |s| > 0 && IsWhitespace(s[0]) then SkipWs(s[1..]) else s
  }

  function HexValue(c: char): Option<nat>
  {
    if '0' <= c <= '9' then Some(c as int - '0' as int)
    else if 'a' <= c <= 'f' then Some(c as int - 'a' as int + 10)
    else if 'A' <= c <= 'F' then Some(c as int - 'A' as int + 10)
    else None
  }

  function Hex4Value(s: string): (r: Option<nat>)
    requires |s| == 4
    ensures r.Some? ==> r.value < 0x1_0000
  {
    match (HexValue(s[0]), HexValue(s[1]), HexValue(s[2]), HexValue(s[3]))
    case (Some(a), Some(b), Some(c), Some(d)) =>
      if a < 16 && b < 16 && c < 16 && d < 16 then Some(((a * 16 + b) * 16 + c) * 16 + d) else None
    case _ => None
  }

  /** A code point Dafny can hold as a `char` (surrogate halves cannot). */
  predicate IsScalar(n: nat)
  {
    n < 0xD800 || 0xE000 <= n < 0x11_0000
  }

  /** The character after a backslash inside a string, and the text after it. */
  function Unescape(s: string): (r: Option<(char, string)>)
    ensures r.Some? ==> |r.value.1| < |s|
  {
    if |s| == 0 then None
    else if s[0] == 'b' then Some(('\U{8}', s[1..]))
    else if s[0] == 't' then Some(('\t', s[1..]))
    else if s[0] == 'n' then Some(('\n', s[1..]))
    else if s[0] == 'f' then Some(('\U{C}', s[1..]))
    else if s[0] == 'r' then Some(('\r', s[1..]))
    else if s[0] == 'u' then
      if |s| < 5 then None
      else
        match Hex4Value(s[1..5])
        case None => None
        case Some(n) => if IsScalar(n) then Some((n as char, s[5..])) else None
    else if s[0] == '"' || s[0] == '\'' || s[0] == '\\' || s[0] == '/' then Some((s[0], s[1..]))
    else None
  }

  /**
   * The rest of a string after its opening quote: the characters up to the
   * closing quote, and the text after it. A raw NUL, line feed or carriage
   * return ends the string unterminated.
   */
  function ParseStringBody(s: string): (r: Option<(string, string)>)
    ensures r.Some? ==> |r.value.1| < |s|
    decreases |s|
  {
    if |s| == 0 then None
    else if s[0] == '"' then Some(("", s[1..]))
    else if s[0] == '\\' then
      match Unescape(s[1..])
      case None => None
      case Some((c, rest)) =>
        match ParseStringBody(rest)
        case None => None
        case Some((t, after)) => Some(([c] + t, after))
    else if s[0] == '\0' || s[0] == '\n' || s[0] == '\r' then None
    else
      match ParseStringBody(s[1..])
      case None => None
      case Some((t, after)) => Some(([s[0]] + t, after))
  }

  function ParseString(s: string): (r: Option<(string, string)>)
    ensures r.Some? ==> |r.value.1| < |s|
  {
    if |s| > 0 && s[0] == '"' then ParseStringBody(s[1..]) else None
  }

  /** How many decimal digits `s` starts with. */
  function LeadingDigits(s: string): (k: nat)
    ensures k <= |s| && AllDigits(s[..k])
  {
    if |s| > 0 && IsDigit(s[0]) then
      var k := 1 + LeadingDigits(s[1..]);
      assert s[..k] == [s[0]] + s[1..][..k - 1];
      k
    else 0
  }

  /** At least one decimal digit: their value and the text after them. */
  function ParseDigits(s: string): (r: Option<(nat, string)>)
    ensures r.Some? ==> |r.value.1| < |s|
  {
    var k := LeadingDigits(s);
    if k == 0 then None else Some((DigitsValue(s[..k]), s[k..]))
  }

  /** An integer: an optional minus sign and at least one digit. */
  function ParseNumber(s: string): (r: Option<(int, string)>)
    ensures r.Some? ==> |r.value.1| < |s|
  {
    var negative := |s| > 0 && s[0] == '-';
    match ParseDigits(if negative then s[1..] else s)
    case None => None
    case Some((magnitude, rest)) => Some((if negative then -(magnitude as int) else magnitude, rest))
  }

  function ParseWord(s: string, word: string, v: Value): (r: Option<(Value, string)>)
    requires |word| > 0
    ensures r.Some? ==> |r.value.1| < |s|
  {
    if StartsWith(s, word) then Some((v, s[|word|..])) else None
  }

  function ParseValue(s: string): (r: Option<(Value, string)>)
    ensures r.Some? ==> |r.value.1| < |s|
  {
    var t := SkipWs(s);
    if |t| == 0 then None
    else if t[0] == '"' then
      match ParseStringBody(t[1..])
      case None => None
      case Some((str, rest)) => Some((JString(str), rest))
    else if t[0] == 't' then ParseWord(t, "true", JBool(true))
    else if t[0] == 'f' then ParseWord(t, "false", JBool(false))
    else if t[0] == 'n' then ParseWord(t, "null", JNull)
    else if t[0] == '-' || IsDigit(t[0]) then
      match ParseNumber(t)
      case None => None
      case Some((n, rest)) => Some((JNumber(n), rest))
    else None
  }

  /** One `"key": value` member, and the text after the value. */
  function ParseMember(s: string): (r: Option<(Member, string)>)
    ensures r.Some? ==> |r.value.1| < |s|
  {
    match ParseString(SkipWs(s))
    case None => None
    case Some((key, afterKey)) =>
      var colon := SkipWs(afterKey);
      if |colon| == 0 || colon[0] != ':' then None
      else
        match ParseValue(colon[1..])
        case None => None
        case Some((v, afterValue)) => Some(((key, v), afterValue))
  }

  /** Members separated by commas, up to and including the closing brace. */
  function ParseMembers(s: string): (r: Option<(seq<Member>, string)>)
    ensures r.Some? ==> |r.value.1| < |s|
    decreases |s|
  {
    match ParseMember(s)
    case None => None
    case Some((m, afterValue)) =>
      var next := SkipWs(afterValue);
      if |next| == 0 then None
      else if next[0] == '}' then Some(([m], next[1..]))
      else if next[0] == ',' then
        match ParseMembers(next[1..])
        case None => None
        case Some((ms, rest)) => Some(([m] + ms, rest))
      else None
  }

  function ParseObject(s: string): (r: Option<(seq<Member>, string)>)
    ensures r.Some? ==> |r.value.1| < |s|
  {
    var t := SkipWs(s);
    if |t| == 0 || t[0] != '{' then None
    else
      var u := SkipWs(t[1..]);
      if |u| > 0 && u[0] == '}' then Some(([], u[1..]))
      else ParseMembers(t[1..])
  }

  predicate DistinctKeys(ms: seq<Member>)
  {
    forall i, j :: 0 <= i < j < |ms| ==> ms[i].0 != ms[j].0
  }

  /**
   * `new JSONObject(text)`: one object and nothing after it but whitespace;
   * a key given twice is an error.
   */
  function ParseJsonObject(s: string): Option<seq<Member>>
  {
    match ParseObject(s)
    case None => None
    case Some((ms, rest)) => if SkipWs(rest) != "" || !DistinctKeys(ms) then None else Some(ms)
  }

  /** The value stored under `key`, if any. */
  function Lookup(ms: seq<Member>, key: string): (r: Option<Value>)
    ensures r.Some? <==> exists i :: 0 <= i < |ms| && ms[i].0 == key
  {
    if |ms| == 0 then None
    else if ms[0].0 == key then Some(ms[0].1)
    else
      var r := Lookup(ms[1..], key);
      assert r.Some? ==> exists i :: 0 <= i < |ms| && ms[i].0 == key by {
        if r.Some? {
          var i :| 0 <= i < |ms[1..]| && ms[1..][i].0 == key;
          assert ms[i + 1].0 == key;
        }
      }
      r
  }

  // -----------------------------------------------------------------------
  // Laws
  // -----------------------------------------------------------------------

  lemma HexDigitValue(d: nat)
    requires d < 16
    ensures HexValue(HexDigit(d)) == Some(d)
  {
  }

  lemma Hex4RoundTrip(n: nat)
    requires n < 0x1_0000
    ensures Hex4Value(Hex4(n)) == Some(n)
  {
    var h := Hex4(n);
    HexDigitValue(n / 16 / 16 / 16);
    HexDigitValue(n / 16 / 16 % 16);
    HexDigitValue(n / 16 % 16);
    HexDigitValue(n % 16);
    Hex4Digits(n);
  }

  lemma Hex4Digits(n: nat)
    requires n < 0x1_0000
    ensures ((n / 16 / 16 / 16 * 16 + n / 16 / 16 % 16) * 16 + n / 16 % 16) * 16 + n % 16 == n
  {
    var x := n / 16;
    var y := x / 16;
    assert y / 16 * 16 + y % 16 == y;
    assert x / 16 * 16 + x % 16 == x;
    assert n / 16 * 16 + n % 16 == n;
  }

  /** Reading one written character back, ahead of whatever text follows it. */
  lemma {:induction false} EscapeCharRoundTrip(prev: char, c: char, tail: string)
    ensures ParseStringBody(EscapeChar(prev, c) + tail) ==
            match ParseStringBody(tail)
            case None => None
            case Some((t, after)) => Some(([c] + t, after))
  {
    var e := EscapeChar(prev, c);
    var s := e + tail;
    if c == '\\' || c == '"' || (c == '/' && prev == '<') || c == '\U{8}' || c == '\t' || c == '\n' ||
       c == '\U{C}' || c == '\r' {
      TwoCharEscape(e, tail);
    } else if c != '/' && NeedsUnicodeEscape(c) {
      UnicodeEscape(c, tail);
    } else {
      assert e == [c];
      assert s[1..] == tail;
    }
  }

  lemma TwoCharEscape(e: string, tail: string)
    requires |e| == 2 && e[0] == '\\' && Unescape([e[1]] + tail).Some?
    ensures ParseStringBody(e + tail) ==
            match ParseStringBody(Unescape([e[1]] + tail).value.1)
            case None => None
            case Some((t, after)) => Some(([Unescape([e[1]] + tail).value.0] + t, after))
  {
    assert (e + tail)[1..] == [e[1]] + tail;
  }

  lemma UnicodeEscape(c: char, tail: string)
    requires NeedsUnicodeEscape(c)
    ensures ParseStringBody("\\u" + Hex4(c as int) + tail) ==
            match ParseStringBody(tail)
            case None => None
            case Some((t, after)) => Some(([c] + t, after))
  {
    var s := "\\u" + Hex4(c as int) + tail;
    var u := s[1..];
    assert u == "u" + Hex4(c as int) + tail;
    Pieces("u", Hex4(c as int), tail);
    Hex4RoundTrip(c as int);
  }

  lemma Pieces<T>(a: seq<T>, b: seq<T>, c: seq<T>)
    ensures (a + b + c)[|a|..|a| + |b|] == b
    ensures (a + b + c)[|a| + |b|..] == c
  {
  }

  lemma SplitFront(a: string, b: string, c: string, d: string)
    ensures a + b + c + d == a + (b + c + d)
  {
  }

  lemma {:induction false} EscapeRoundTrip(s: string, prev: char, rest: string)
    ensures ParseStringBody(Escape(s, prev) + "\"" + rest) == Some((s, rest))
    decreases |s|
  {
    if |s| == 0 {
      assert Escape(s, prev) + "\"" + rest == "\"" + rest;
    } else {
      var head := EscapeChar(prev, s[0]);
      var escaped := Escape(s[1..], s[0]);
      var tail := escaped + "\"" + rest;
      assert Escape(s, prev) == head + escaped;
      SplitFront(head, escaped, "\"", rest);
      EscapeRoundTrip(s[1..], s[0], rest);
      EscapeCharRoundTrip(prev, s[0], tail);
      ConsOfFirst(s);
    }
  }

  /** What `quote` writes, the string reader gives back, whatever follows. */
  lemma QuoteRoundTrip(s: string, rest: string)
    ensures ParseString(Quote(s) + rest) == Some((s, rest))
  {
    EscapeRoundTrip(s, '\0', rest);
    assert (Quote(s) + rest)[1..] == Escape(s, '\0') + "\"" + rest;
  }

  lemma {:induction false} LeadingDigitsOf(d: string, rest: string)
    requires AllDigits(d)
    requires rest == [] || !IsDigit(rest[0])
    ensures LeadingDigits(d + rest) == |d|
    decreases |d|
  {
    if |d| > 0 {
      LeadingDigitsOf(d[1..], rest);
      assert (d + rest)[1..] == d[1..] + rest;
    }
  }

  /** Digits followed by a non-digit: the reader takes exactly the digits. */
  lemma DigitsThenRest(d: string, rest: string)
    requires AllDigits(d) && |d| > 0
    requires rest == [] || !IsDigit(rest[0])
    ensures ParseDigits(d + rest) == Some((DigitsValue(d), rest))
  {
    LeadingDigitsOf(d, rest);
    assert (d + rest)[..|d|] == d && (d + rest)[|d|..] == rest;
  }

  /** The decimal text of a natural number reads back as that number. */
  lemma DecimalRoundTrip(m: nat, rest: string)
    requires rest == [] || !IsDigit(rest[0])
    ensures ParseDigits(NatToDecimal(m) + rest) == Some((m, rest))
  {
    DigitsValueOfDecimal(m);
    DigitsThenRest(NatToDecimal(m), rest);
  }

  /** A minus sign, then what the digit reader accepts. */
  lemma ParseNegative(s: string, m: nat, rest: string)
    requires |s| > 0 && s[0] == '-' && ParseDigits(s[1..]) == Some((m, rest))
    ensures ParseNumber(s) == Some((-(m as int), rest))
  {
  }

  lemma SignedText(d: string, rest: string)
    ensures ("-" + d + rest)[0] == '-' && ("-" + d + rest)[1..] == d + rest
  {
  }

  lemma NegativeNumberRoundTrip(n: int, rest: string)
    requires n < 0
    requires rest == [] || !IsDigit(rest[0])
    ensures ParseNumber(IntToString(n) + rest) == Some((n, rest))
  {
    var d := NatToDecimal(-n);
    assert IntToString(n) == "-" + d;
    SignedText(d, rest);
    DecimalRoundTrip(-n, rest);
    ParseNegative("-" + d + rest, -n, rest);
  }

  lemma NumberRoundTrip(n: int, rest: string)
    requires rest == [] || !IsDigit(rest[0])
    ensures ParseNumber(IntToString(n) + rest) == Some((n, rest))
  {
    if n < 0 {
      NegativeNumberRoundTrip(n, rest);
    } else {
      var s := IntToString(n) + rest;
      assert IsDigit(s[0]);
      DecimalRoundTrip(n, rest);
    }
  }

  /** A character that may follow a value in an object. */
  predicate EndsValue(rest: string)
  {
    rest == [] || rest[0] == ',' || rest[0] == '}'
  }

  lemma StringValueRoundTrip(str: string, rest: string)
    ensures ParseValue(Quote(str) + rest) == Some((JString(str), rest))
  {
    var s := Quote(str) + rest;
    assert s[0] == '"';
    assert SkipWs(s) == s;
    QuoteRoundTrip(str, rest);
  }

  lemma NumberValueRoundTrip(n: int, rest: string)
    requires EndsValue(rest)
    ensures ParseValue(IntToString(n) + rest) == Some((JNumber(n), rest))
  {
    var s := IntToString(n) + rest;
    assert s[0] == IntToString(n)[0];
    assert SkipWs(s) == s;
    NumberRoundTrip(n, rest);
  }

  lemma WordValueRoundTrip(word: string, v: Value, rest: string)
    requires (word, v) == ("true", JBool(true)) || (word, v) == ("false", JBool(false)) || (word, v) == ("null", JNull)
    ensures ParseValue(word + rest) == Some((v, rest))
  {
    var s := word + rest;
    assert s[0] == word[0];
    assert SkipWs(s) == s;
    assert s[..|word|] == word && s[|word|..] == rest;
  }

  lemma ValueRoundTrip(v: Value, rest: string)
    requires EndsValue(rest)
    ensures ParseValue(EncodeValue(v) + rest) == Some((v, rest))
  {
    match v
    case JString(str) =>
      StringValueRoundTrip(str, rest);
    case JNumber(n) =>
      NumberValueRoundTrip(n, rest);
    case JBool(b) =>
      WordValueRoundTrip(EncodeValue(v), v, rest);
    case JNull =>
      WordValueRoundTrip("null", v, rest);
  }

  /** A member is read as a key, a colon and a value, each by its own reader. */
  lemma ParseMemberOf(s: string, key: string, after: string, valueText: string, v: Value, rest: string)
    requires |s| > 0 && s[0] == '"'
    requires ParseString(s) == Some((key, after))
    requires after == [':'] + valueText
    requires ParseValue(valueText) == Some((v, rest))
    ensures ParseMember(s) == Some(((key, v), rest))
  {
    assert SkipWs(s) == s;
    assert SkipWs(after) == after;
    assert after[1..] == valueText;
  }

  /** A regrouping of concatenations, kept as a lemma of its own so that callers need not re-derive it inline (a proof-performance aid). */
  lemma Regroup3(a: string, b: string, c: string, d: string)
    ensures a + b + c + d == a + (b + (c + d))
  {
  }

  lemma MemberRoundTrip(m: Member, rest: string)
    requires EndsValue(rest)
    ensures ParseMember(EncodeMember(m) + rest) == Some((m, rest))
  {
    var valueText := EncodeValue(m.1) + rest;
    var after := ":" + valueText;
    var s := Quote(m.0) + after;
    Regroup3(Quote(m.0), ":", EncodeValue(m.1), rest);
    assert s[0] == '"';
    QuoteRoundTrip(m.0, after);
    ValueRoundTrip(m.1, rest);
    ParseMemberOf(s, m.0, after, valueText, m.1, rest);
  }

  lemma {:induction false} MembersRoundTrip(ms: seq<Member>, rest: string)
    requires |ms| > 0
    ensures ParseMembers(EncodeMembers(ms) + "}" + rest) == Some((ms, rest))
    decreases |ms|
  {
    if |ms| == 1 {
      LastMemberRoundTrip(ms[0], rest);
      assert [ms[0]] == ms;
    } else {
      var tail := EncodeMembers(ms[1..]) + "}" + rest;
      MembersRoundTrip(ms[1..], rest);
      NextMemberRoundTrip(ms[0], tail, ms[1..], rest);
      Regroup(EncodeMember(ms[0]), ",", EncodeMembers(ms[1..]), "}", rest);
      ConsOfFirst(ms);
    }
  }

  /** A regrouping of concatenations, kept as a lemma of its own so that callers need not re-derive it inline (a proof-performance aid). */
  lemma Regroup(a: string, sep: string, b: string, close: string, rest: string)
    ensures a + sep + b + close + rest == a + (sep + (b + close + rest))
  {
  }

  lemma ConsOfFirst<T>(s: seq<T>)
    requires |s| > 0
    ensures [s[0]] + s[1..] == s
  {
  }

  lemma LastMemberRoundTrip(m: Member, rest: string)
    ensures ParseMembers(EncodeMembers([m]) + "}" + rest) == Some(([m], rest))
  {
    var s := EncodeMember(m) + ("}" + rest);
    assert EncodeMembers([m]) + "}" + rest == s;
    MemberRoundTrip(m, "}" + rest);
  }

  lemma NextMemberRoundTrip(m: Member, tail: string, ms: seq<Member>, rest: string)
    requires ParseMembers(tail) == Some((ms, rest))
    ensures ParseMembers(EncodeMember(m) + ("," + tail)) == Some(([m] + ms, rest))
  {
    MemberRoundTrip(m, "," + tail);
    assert ("," + tail)[1..] == tail;
  }

  /** What `toString` writes, `new JSONObject` reads back, member for member. */
  lemma ObjectRoundTrip(ms: seq<Member>)
    requires DistinctKeys(ms)
    ensures ParseJsonObject(EncodeObject(ms)) == Some(ms)
  {
    if |ms| == 0 {
      assert EncodeObject(ms) == "{}";
    } else {
      MembersRoundTrip(ms, "");
      ObjectBody(EncodeMembers(ms));
    }
  }

  lemma ObjectBody(body: string)
    ensures var s := "{" + body + "}";
            s[1..] == body + "}" + "" && SkipWs(s) == s
  {
  }

  /** With distinct keys, the value found for a key is the one stored with it, wherever it stands. */
  lemma {:induction false} LookupDistinct(ms: seq<Member>, i: nat)
    requires DistinctKeys(ms) && i < |ms|
    ensures Lookup(ms, ms[i].0) == Some(ms[i].1)
    decreases |ms|
  {
    if i > 0 {
      assert ms[0].0 != ms[i].0;
      assert ms[1..][i - 1] == ms[i];
      LookupDistinct(ms[1..], i - 1);
    }
  }
}
