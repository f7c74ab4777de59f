/** The storage encoding of an event's tags: `JSON.stringify` of a string
    array on write and `JSON.parse` on read. The decoder accepts JSON text:
    literals, numbers (kept as their text), strings, arrays and objects
    (kept as their members in written order), with JSON white space
    between tokens. */
module TagJson {
  import opened Seqs
  import opened Text

  datatype Json =
    | JNull
    | JBool(b: bool)
    | JNumber(text: string)
    | JString(s: string)
    | JArray(items: seq<Json>)
    | JObject(members: seq<(string, Json)>)

  /** The JSON array value of a list of strings. */
  function Strings(xs: seq<string>): (r: seq<Json>)
    ensures |r| == |xs|
    ensures forall i :: 0 <= i < |xs| ==> r[i] == JString(xs[i])
  {
    seq(|xs|, i requires 0 <= i < |xs| => JString(xs[i]))
  }

  // ---------------------------------------------------------------------
  // Encoding (JSON.stringify of an array of strings)

  function HexDigit(d: nat): char
    requires d < 16
  {
    if d < 10 then DigitChar(d) else ('a' as int + d - 10) as char
  }

  /** The characters `JSON.stringify` writes as an escape sequence. */
  predicate NeedsEscape(c: char) {
    c == '"' || c == '\\' || (c as int) < 0x20
  }

  /** What follows the backslash in the escape of `c`. */
  function EscapeCode(c: char): string
    requires NeedsEscape(c)
  {
    var n := c as int;
    if c == '"' then ['"']
    else if c == '\\' then ['\\']
    else if n == 8 then ['b']
    else if n == 9 then ['t']
    else if n == 10 then ['n']
    else if n == 12 then ['f']
    else if n == 13 then ['r']
    else ['u', '0', '0', HexDigit(n / 16), HexDigit(n % 16)]
  }

  /** The text of one character inside a JSON string literal, escaped the
      way `JSON.stringify` escapes it. */
  function EscapeChar(c: char): string {
    if NeedsEscape(c) then ['\\'] + EscapeCode(c) else [c]
  }

  function Escape(s: string): string {
    if |s| == 0 then "" else EscapeChar(s[0]) + Escape(s[1..])
  }

  function Quote(s: string): string {
    "\"" + Escape(s) + "\""
  }

  /** The comma-separated quoted elements. */
  function Items(xs: seq<string>): string {
    if |xs| == 0 then ""
    else if |xs| == 1 then Quote(xs[0])
    else Quote(xs[0]) + "," + Items(xs[1..])
  }

  /** `JSON.stringify(xs)` for an array of strings. */
  function Encode(xs: seq<string>): (r: string)
    ensures |r| >= 2 && r[0] == '[' && r[|r| - 1] == ']'
  {
    "[" + Items(xs) + "]"
  }

  // ---------------------------------------------------------------------
  // Decoding (JSON.parse)

  predicate IsJsonSpace(c: char) {
    c == ' ' || c == '\t' || c == '\n' || c == '\r'
  }

  function SkipWs(s: string): (r: string)
    ensures |r| <= |s| && r == s[|s| - |r|..]
    ensures |r| == 0 || !IsJsonSpace(r[0])
  {
    if |s| > 0 && IsJsonSpace(s[0]) then SkipWs(s[1..]) else s
  }

  predicate IsHex(c: char) {
    ('0' <= c <= '9') || ('a' <= c <= 'f') || ('A' <= c <= 'F')
  }

  function HexValue(c: char): (v: nat)
    requires IsHex(c)
    ensures v < 16
  {
    if '0' <= c <= '9' then c as int - '0' as int
    else if 'a' <= c <= 'f' then c as int - 'a' as int + 10
    else c as int - 'A' as int + 10
  }

  /** Four hexadecimal digits start at position `i` of `e`. */
  predicate IsHex4(e: string, i: nat) {
    i + 4 <= |e| && IsHex(e[i]) && IsHex(e[i + 1]) && IsHex(e[i + 2]) && IsHex(e[i + 3])
  }

  /** The code unit the four hexadecimal digits at position `i` spell. */
  function Hex4(e: string, i: nat): (v: nat)
    requires IsHex4(e, i)
    ensures v < 0x10000
  {
    HexValue(e[i]) * 4096 + HexValue(e[i + 1]) * 256 + HexValue(e[i + 2]) * 16 + HexValue(e[i + 3])
  }

  /** The character a `\u` escape stands for, with how many characters
      after the backslash it occupies: one code unit outside the surrogate
      range, or a high surrogate followed by a `\u` escape of a low one,
      which together name one character beyond the Basic Multilingual
      Plane. An unpaired surrogate names no character. */
  function UnescapeUnicode(e: string): (r: Option<(char, nat)>)
    requires IsHex4(e, 1)
    ensures r.Some? ==> r.value.1 <= |e|
  {
    var v := Hex4(e, 1);
    if v < 0xD800 || 0xDFFF < v then Some((v as char, 5))
    else if v <= 0xDBFF && |e| >= 11 && e[5] == '\\' && e[6] == 'u' && IsHex4(e, 7)
            && 0xDC00 <= Hex4(e, 7) <= 0xDFFF then
      Some(((0x10000 + (v - 0xD800) * 0x400 + (Hex4(e, 7) - 0xDC00)) as char, 11))
    else None
  }

  /** The character an escape sequence stands for and how many characters
      after the backslash it occupies. */
  function Unescape(e: string): (r: Option<(char, nat)>)
    ensures r.Some? ==> 1 <= r.value.1 <= |e|
  {
    if |e| == 0 then None
    else if e[0] == '"' || e[0] == '\\' || e[0] == '/' then Some((e[0], 1))
    else if e[0] == 'b' then Some((8 as char, 1))
    else if e[0] == 't' then Some((9 as char, 1))
    else if e[0] == 'n' then Some((10 as char, 1))
    else if e[0] == 'f' then Some((12 as char, 1))
    else if e[0] == 'r' then Some((13 as char, 1))
    else if e[0] == 'u' && IsHex4(e, 1) then UnescapeUnicode(e)
    else None
  }

  /** The body of a string literal up to its closing quote (which `s` no
      longer starts with), and the text after that quote. Raw control
      characters are rejected, as JSON requires. */
  function ParseChars(s: string): (r: Option<(string, string)>)
    ensures r.Some? ==> |r.value.1| < |s|
    decreases |s|
  {
    if |s| == 0 then None
    else if s[0] == '"' then Some(("", s[1..]))
    else if s[0] == '\\' then
      match Unescape(s[1..])
      case None => None
      case Some((c, n)) => Cons(c, ParseChars(s[1 + n..]))
    else if (s[0] as int) < 0x20 then None
    else Cons(s[0], ParseChars(s[1..]))
  }

  /** Puts `c` in front of a parsed string body. */
  function Cons(c: char, r: Option<(string, string)>): (r': Option<(string, string)>)
    ensures r'.Some? <==> r.Some?
    ensures r.Some? ==> r'.value == ([c] + r.value.0, r.value.1)
  {
    match r
    case None => None
    case Some((t, rest)) => Some(([c] + t, rest))
  }

  /** The number of decimal digits at the head of `s`. */
  function DigitRun(s: string): (n: nat)
    ensures n <= |s|
  {
    if |s| > 0 && IsDigit(s[0]) then 1 + DigitRun(s[1..]) else 0
  }

  /** Where an optional fraction (`.` and at least one digit) starting at
      `b` ends; `None` for a `.` without digits. */
  function FractionEnd(s: string, b: nat): (r: Option<nat>)
    requires b <= |s|
    ensures r.Some? ==> b <= r.value <= |s|
  {
    if b < |s| && s[b] == '.' then
      var k := DigitRun(s[b + 1..]);
      if k == 0 then None else Some(b + 1 + k)
    else Some(b)
  }

  /** Where an optional exponent (`e` or `E`, an optional sign, at least
      one digit) starting at `c` ends; `None` for an exponent without
      digits. */
  function ExponentEnd(s: string, c: nat): (r: Option<nat>)
    requires c <= |s|
    ensures r.Some? ==> c <= r.value <= |s|
  {
    if c < |s| && (s[c] == 'e' || s[c] == 'E') then
      var d := if c + 1 < |s| && (s[c + 1] == '+' || s[c + 1] == '-') then c + 2 else c + 1;
      var k := DigitRun(s[d..]);
      if k == 0 then None else Some(d + k)
    else Some(c)
  }

  /** The length of the number at the head of `s`: an optional minus, then
      `0` or digits not starting with `0`, then the optional fraction and
      exponent. */
  function NumberEnd(s: string): (r: Option<nat>)
    ensures r.Some? ==> 0 < r.value <= |s|
  {
    var a := if |s| > 0 && s[0] == '-' then 1 else 0;
    var i := DigitRun(s[a..]);
    if i == 0 || (s[a] == '0' && i > 1) then None
    else ExponentEndOf(s, FractionEnd(s, a + i))
  }

  function ExponentEndOf(s: string, c: Option<nat>): (r: Option<nat>)
    requires c.Some? ==> 0 < c.value <= |s|
    ensures r.Some? ==> 0 < r.value <= |s|
  {
    if c.None? then None else ExponentEnd(s, c.value)
  }

  /** A literal, a number or a string starting exactly at the head of
      `s`. */
  function ParseScalar(s: string): (r: Option<(Json, string)>)
    ensures r.Some? ==> |r.value.1| < |s|
  {
    if |s| > 0 && s[0] == '"' then
      match ParseChars(s[1..])
      case None => None
      case Some((t, rest)) => Some((JString(t), rest))
    else if |s| >= 4 && s[0] == 'n' && s[1] == 'u' && s[2] == 'l' && s[3] == 'l' then Some((JNull, s[4..]))
    else if |s| >= 4 && s[0] == 't' && s[1] == 'r' && s[2] == 'u' && s[3] == 'e' then Some((JBool(true), s[4..]))
    else if |s| >= 5 && s[0] == 'f' && s[1] == 'a' && s[2] == 'l' && s[3] == 's' && s[4] == 'e' then
      Some((JBool(false), s[5..]))
    else if |s| > 0 && (s[0] == '-' || IsDigit(s[0])) then
      match NumberEnd(s)
      case None => None
      case Some(n) => Some((JNumber(s[..n]), s[n..]))
    else None
  }

  /** A value after optional white space, and the text after it. */
  function ParseValue(s: string): (r: Option<(Json, string)>)
    ensures r.Some? ==> |r.value.1| < |s|
    decreases |s|, 0
  {
    var t := SkipWs(s);
    if |t| > 0 && t[0] == '[' then ParseArray(t[1..])
    else if |t| > 0 && t[0] == '{' then ParseObject(t[1..])
    else ParseScalar(t)
  }

  /** The rest of an array after its opening `[`. */
  function ParseArray(s: string): (r: Option<(Json, string)>)
    ensures r.Some? ==> |r.value.1| < |s|
    decreases |s|, 2
  {
    var u := SkipWs(s);
    if |u| > 0 && u[0] == ']' then Some((JArray([]), u[1..]))
    else ArrayOf(ParseElements(s))
  }

  function ArrayOf(e: Option<(seq<Json>, string)>): (r: Option<(Json, string)>)
    ensures r.Some? <==> e.Some?
    ensures r.Some? ==> r.value == (JArray(e.value.0), e.value.1)
  {
    if e.None? then None else Some((JArray(e.value.0), e.value.1))
  }

  /** One or more comma-separated values closed by `]`. */
  function ParseElements(s: string): (r: Option<(seq<Json>, string)>)
    ensures r.Some? ==> |r.value.1| < |s| && |r.value.0| >= 1
    decreases |s|, 1
  {
    var head := ParseValue(s);
    if head.None? then None
    else ElementsAfter(head.value.0, SkipWs(head.value.1))
  }

  /** What follows the element `v`: a comma and more elements, or `]`. */
  function ElementsAfter(v: Json, s: string): (r: Option<(seq<Json>, string)>)
    ensures r.Some? ==> |r.value.1| < |s| && |r.value.0| >= 1
    decreases |s|, 3
  {
    if |s| > 0 && s[0] == ',' then ConsElement(v, ParseElements(s[1..]))
    else if |s| > 0 && s[0] == ']' then Some(([v], s[1..]))
    else None
  }

  /** Puts `v` in front of parsed elements. */
  function ConsElement(v: Json, r: Option<(seq<Json>, string)>): (r': Option<(seq<Json>, string)>)
    ensures r'.Some? <==> r.Some?
    ensures r.Some? ==> r'.value == ([v] + r.value.0, r.value.1)
  {
    if r.None? then None else Some(([v] + r.value.0, r.value.1))
  }

  /** The rest of an object after its opening `{`. */
  function ParseObject(s: string): (r: Option<(Json, string)>)
    ensures r.Some? ==> |r.value.1| < |s|
    decreases |s|, 2
  {
    var u := SkipWs(s);
    if |u| > 0 && u[0] == '}' then Some((JObject([]), u[1..]))
    else ObjectOf(ParseMembers(s))
  }

  function ObjectOf(m: Option<(seq<(string, Json)>, string)>): (r: Option<(Json, string)>)
    ensures r.Some? <==> m.Some?
    ensures r.Some? ==> r.value == (JObject(m.value.0), m.value.1)
  {
    if m.None? then None else Some((JObject(m.value.0), m.value.1))
  }

  /** One or more comma-separated `"name": value` members closed by `}`. */
  function ParseMembers(s: string): (r: Option<(seq<(string, Json)>, string)>)
    ensures r.Some? ==> |r.value.1| < |s|
    decreases |s|, 1
  {
    var t := SkipWs(s);
    if |t| == 0 || t[0] != '"' then None
    else
      match ParseChars(t[1..])
      case None => None
      case Some((name, rest)) =>
        var c := SkipWs(rest);
        if |c| == 0 || c[0] != ':' then None
        else
          var v := ParseValue(c[1..]);
          if v.None? then None
          else MembersAfter(name, v.value.0, SkipWs(v.value.1))
  }

  /** What follows the member `name: v`: a comma and more members, or
      `}`. */
  function MembersAfter(name: string, v: Json, s: string): (r: Option<(seq<(string, Json)>, string)>)
    ensures r.Some? ==> |r.value.1| < |s|
    decreases |s|, 3
  {
    if |s| > 0 && s[0] == ',' then ConsMember((name, v), ParseMembers(s[1..]))
    else if |s| > 0 && s[0] == '}' then Some(([(name, v)], s[1..]))
    else None
  }

  function ConsMember(m: (string, Json), r: Option<(seq<(string, Json)>, string)>)
    : (r': Option<(seq<(string, Json)>, string)>)
    ensures r'.Some? <==> r.Some?
    ensures r.Some? ==> r'.value == ([m] + r.value.0, r.value.1)
  {
    if r.None? then None else Some(([m] + r.value.0, r.value.1))
  }

  /** `JSON.parse(s)`; `None` where it throws. */
  function Decode(s: string): Option<Json>
  {
    match ParseValue(s)
    case None => None
    case Some((v, rest)) => if |SkipWs(rest)| == 0 then Some(v) else None
  }

  // ---------------------------------------------------------------------
  // Round trip

  lemma HexRoundTrip(d: nat)
    requires d < 16
    ensures IsHex(HexDigit(d)) && HexValue(HexDigit(d)) == d
  {
  }

  lemma UnescapeCodeUnit(c: char, tail: string)
    requires NeedsEscape(c) && |EscapeCode(c)| == 5
    ensures Unescape(EscapeCode(c) + tail) == Some((c, 5))
  {
    var n := c as int;
    HexRoundTrip(n / 16);
    HexRoundTrip(n % 16);
    var e := EscapeCode(c) + tail;
    assert e[0] == 'u' && e[1] == '0' && e[2] == '0';
    assert e[3] == HexDigit(n / 16) && e[4] == HexDigit(n % 16);
    assert IsHex4(e, 1) && Hex4(e, 1) == n;
  }

  /** Every escape `JSON.stringify` writes reads back as its character. */
  lemma UnescapeCode(c: char, tail: string)
    requires NeedsEscape(c)
    ensures Unescape(EscapeCode(c) + tail) == Some((c, |EscapeCode(c)|))
  {
    if |EscapeCode(c)| == 5 {
      UnescapeCodeUnit(c, tail);
    }
  }

  lemma EscapeCharParses(c: char, tail: string)
    ensures ParseChars(EscapeChar(c) + tail) == Cons(c, ParseChars(tail))
  {
    var s := EscapeChar(c) + tail;
    if NeedsEscape(c) {
      var e := EscapeCode(c);
      assert s[0] == '\\' && s[1..] == e + tail;
      UnescapeCode(c, tail);
      assert s[1 + |e|..] == tail;
    } else {
      assert s[0] == c && s[1..] == tail;
    }
  }

  /** The body of an encoded string literal parses back to the string. */
  lemma {:induction false} EscapeParses(x: string, rest: string)
    ensures ParseChars(Escape(x) + "\"" + rest) == Some((x, rest))
    decreases |x|
  {
    if |x| == 0 {
      assert Escape(x) + "\"" + rest == "\"" + rest;
    } else {
      EscapeParses(x[1..], rest);
      assert Escape(x) + "\"" + rest == EscapeChar(x[0]) + (Escape(x[1..]) + "\"" + rest);
      EscapeCharParses(x[0], Escape(x[1..]) + "\"" + rest);
      assert [x[0]] + x[1..] == x;
    }
  }

  lemma QuoteParses(x: string, rest: string)
    ensures ParseScalar(Quote(x) + rest) == Some((JString(x), rest))
  {
    var s := Quote(x) + rest;
    assert s[0] == '"';
    assert s[1..] == Escape(x) + "\"" + rest;
    EscapeParses(x, rest);
  }

  /** An encoded string literal is a value. */
  lemma ValueOfQuote(x: string, rest: string)
    ensures ParseValue(Quote(x) + rest) == Some((JString(x), rest))
  {
    var s := Quote(x) + rest;
    assert s[0] == '"';
    SkipWsStop(s);
    QuoteParses(x, rest);
  }

  /** Elements starting with a value continue with what follows it. */
  lemma ElementsHead(s: string, v: Json, after: string)
    requires ParseValue(s) == Some((v, after))
    requires |after| > 0 && (after[0] == ',' || after[0] == ']')
    ensures ParseElements(s) == ElementsAfter(v, after)
  {
    assert SkipWs(after) == after;
  }

  lemma AfterComma(v: Json, after: string)
    requires |after| > 0 && after[0] == ','
    ensures ElementsAfter(v, after) == ConsElement(v, ParseElements(after[1..]))
  {
  }

  lemma ElementsMore(s: string, v: Json, after: string, vs: seq<Json>, rest: string)
    requires ParseValue(s) == Some((v, after))
    requires |after| > 0 && after[0] == ','
    requires ParseElements(after[1..]) == Some((vs, rest))
    ensures ParseElements(s) == Some(([v] + vs, rest))
  {
    ElementsHead(s, v, after);
    AfterComma(v, after);
  }

  lemma ElementsLast(s: string, v: Json, after: string)
    requires ParseValue(s) == Some((v, after))
    requires |after| > 0 && after[0] == ']'
    ensures ParseElements(s) == Some(([v], after[1..]))
  {
    ElementsHead(s, v, after);
  }

  /** A single encoded string closed by `]`. */
  lemma ItemsOne(x: string, rest: string)
    ensures ParseElements(Quote(x) + ("]" + rest)) == Some(([JString(x)], rest))
  {
    var after := "]" + rest;
    var s := Quote(x) + after;
    ValueOfQuote(x, after);
    assert after[1..] == rest;
    ElementsLast(s, JString(x), after);
  }

  /** An encoded string, a comma and more elements. */
  lemma ItemsCons(x: string, tail: string, vs: seq<Json>, rest: string)
    requires ParseElements(tail) == Some((vs, rest))
    ensures ParseElements(Quote(x) + ("," + tail)) == Some(([JString(x)] + vs, rest))
  {
    var after := "," + tail;
    var s := Quote(x) + after;
    ValueOfQuote(x, after);
    assert after[1..] == tail;
    ElementsMore(s, JString(x), after, vs, rest);
  }

  lemma ItemsSplit(xs: seq<string>, rest: string)
    requires |xs| >= 2
    ensures Items(xs) + "]" + rest == Quote(xs[0]) + ("," + (Items(xs[1..]) + "]" + rest))
  {
    var q, t := Quote(xs[0]), Items(xs[1..]);
    assert Items(xs) == q + "," + t;
    Regroup(q, t, rest);
  }

  lemma Regroup(q: string, t: string, rest: string)
    ensures q + "," + t + "]" + rest == q + ("," + (t + "]" + rest))
  {
  }

  lemma ItemsSingle(xs: seq<string>, rest: string)
    requires |xs| == 1
    ensures Items(xs) + "]" + rest == Quote(xs[0]) + ("]" + rest)
  {
    var q := Quote(xs[0]);
    assert Items(xs) == q;
    assert q + "]" + rest == q + ("]" + rest);
  }

  lemma StringsOne(xs: seq<string>)
    requires |xs| == 1
    ensures Strings(xs) == [JString(xs[0])]
  {
  }

  lemma StringsCons(xs: seq<string>)
    requires |xs| >= 1
    ensures Strings(xs) == [JString(xs[0])] + Strings(xs[1..])
  {
  }

  lemma {:induction false} ItemsParse(xs: seq<string>, rest: string)
    requires |xs| >= 1
    ensures ParseElements(Items(xs) + "]" + rest) == Some((Strings(xs), rest))
    decreases |xs|
  {
    if |xs| == 1 {
      StringsOne(xs);
      ItemsSingle(xs, rest);
      ItemsOne(xs[0], rest);
    } else {
      var tail := Items(xs[1..]) + "]" + rest;
      StringsCons(xs);
      ItemsSplit(xs, rest);
      ItemsParse(xs[1..], rest);
      ItemsCons(xs[0], tail, Strings(xs[1..]), rest);
    }
  }

  /** A value starting with `[` is the rest of an array. */
  lemma ValueOfBracket(body: string)
    ensures ParseValue("[" + body) == ParseArray(body)
  {
    var s := "[" + body;
    assert SkipWs(s) == s;
    assert s[1..] == body;
  }

  lemma ArrayOfElements(body: string, vs: seq<Json>)
    requires |body| > 0 && body[0] == '"'
    requires ParseElements(body) == Some((vs, ""))
    ensures ParseArray(body) == Some((JArray(vs), ""))
  {
    ArrayWithElements(body);
  }

  /** An array whose body does not start with `]` is its elements. */
  lemma ArrayWithElements(body: string)
    requires |body| > 0 && body[0] != ']' && !IsJsonSpace(body[0])
    ensures ParseArray(body) == ArrayOf(ParseElements(body))
  {
    SkipWsStop(body);
  }

  lemma DecodeOfValue(s: string, v: Json)
    requires ParseValue(s) == Some((v, ""))
    ensures Decode(s) == Some(v)
  {
  }

  lemma SkipWsStop(s: string)
    requires |s| > 0 && !IsJsonSpace(s[0])
    ensures SkipWs(s) == s
  {
  }

  lemma CloseArray(u: string)
    requires |u| > 0 && u[0] == ']'
    ensures ParseArray(u) == Some((JArray([]), u[1..]))
  {
    SkipWsStop(u);
  }

  lemma DecodeEmptyArray()
    ensures Decode("[]") == Some(JArray([]))
  {
    var s := "[]";
    assert s[0] == '[' && s[1] == ']';
    SkipWsStop(s);
    assert ParseValue(s) == ParseArray(s[1..]);
    CloseArray(s[1..]);
    assert |s[1..][1..]| == 0;
  }

  /** The literal `null` decodes to the null scalar. */
  lemma DecodeNull(s: string)
    requires |s| == 4 && s[0] == 'n' && s[1] == 'u' && s[2] == 'l' && s[3] == 'l'
    ensures Decode(s) == Some(JNull)
  {
    SkipWsStop(s);
    assert ParseScalar(s) == Some((JNull, s[4..]));
    assert |s[4..]| == 0;
  }

  lemma ItemsStart(xs: seq<string>)
    requires |xs| >= 1
    ensures |Items(xs)| > 0 && Items(xs)[0] == '"'
  {
    assert Quote(xs[0])[0] == '"';
  }

  lemma EncodeSplit(xs: seq<string>)
    ensures Encode(xs) == "[" + (Items(xs) + "]" + "")
  {
  }

  /** Decoding the stored encoding of a tag list gives back that list. */
  lemma DecodeEncode(xs: seq<string>)
    ensures Decode(Encode(xs)) == Some(JArray(Strings(xs)))
  {
    if |xs| == 0 {
      assert Encode(xs) == "[]";
      DecodeEmptyArray();
    } else {
      var body := Items(xs) + "]" + "";
      EncodeSplit(xs);
      ItemsStart(xs);
      assert body[0] == '"';
      ItemsParse(xs, "");
      ArrayOfElements(body, Strings(xs));
      ValueOfBracket(body);
      DecodeOfValue(Encode(xs), JArray(Strings(xs)));
    }
  }

  // ---------------------------------------------------------------------
  // Arrays holding numbers

  /** Decimal digits without a superfluous leading zero: a non-negative
      integer as JSON writes it. */
  predicate IntegerText(d: string) {
    |d| > 0 && (forall i :: 0 <= i < |d| ==> IsDigit(d[i])) && (d[0] == '0' ==> |d| == 1)
  }

  lemma {:induction false} DigitRunOf(d: string, rest: string)
    requires forall i :: 0 <= i < |d| ==> IsDigit(d[i])
    requires |rest| == 0 || !IsDigit(rest[0])
    ensures DigitRun(d + rest) == |d|
    decreases |d|
  {
    if |d| > 0 {
      assert (d + rest)[0] == d[0];
      assert (d + rest)[1..] == d[1..] + rest;
      DigitRunOf(d[1..], rest);
    } else {
      assert d + rest == rest;
    }
  }

  /** An integer followed by a comma is a number value. */
  lemma NumberParses(d: string, rest: string)
    requires IntegerText(d)
    requires |rest| > 0 && rest[0] == ','
    ensures ParseValue(d + rest) == Some((JNumber(d), rest))
  {
    var s := d + rest;
    assert s[0] == d[0] && s[|d|] == ',';
    SkipWsStop(s);
    DigitRunOf(d, rest);
    assert s[0..] == s;
    assert NumberEnd(s) == Some(|d|);
    assert s[..|d|] == d && s[|d|..] == rest;
  }

  /** The elements of an integer followed by encoded strings. */
  lemma ElementsNumberFirst(d: string, xs: seq<string>)
    requires IntegerText(d) && |xs| > 0
    ensures ParseElements(d + ("," + (Items(xs) + "]" + ""))) == Some(([JNumber(d)] + Strings(xs), ""))
  {
    var tail := Items(xs) + "]" + "";
    ItemsParse(xs, "");
    NumberParses(d, "," + tail);
    assert ("," + tail)[1..] == tail;
    ElementsMore(d + ("," + tail), JNumber(d), "," + tail, Strings(xs), "");
  }

  lemma NumberFirstSplit(d: string, xs: seq<string>)
    ensures "[" + d + "," + Items(xs) + "]" == "[" + (d + ("," + (Items(xs) + "]" + "")))
  {
  }

  /** A stored array with an integer in front of encoded strings decodes
      to that number followed by the strings. */
  lemma DecodeNumberFirst(d: string, xs: seq<string>)
    requires IntegerText(d) && |xs| > 0
    ensures Decode("[" + d + "," + Items(xs) + "]") == Some(JArray([JNumber(d)] + Strings(xs)))
  {
    var body := d + ("," + (Items(xs) + "]" + ""));
    ElementsNumberFirst(d, xs);
    assert body[0] == d[0];
    ArrayWithElements(body);
    NumberFirstSplit(d, xs);
    ValueOfBracket(body);
    DecodeOfValue("[" + body, JArray([JNumber(d)] + Strings(xs)));
  }
}
