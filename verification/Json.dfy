/** The JSON printer and parser as functions of byte strings, and the proof that they undo each other.
    A parse works on what is left of the input; an error says how much was left when it was noticed. */
module Json {
  import opened Bytes

  // ---- values ----

  /** A number is kept exactly while it is integral and below 1e15 in magnitude; any other is left as the
      token that the floating-point reader would be given. */
  datatype Value =
    | Null
    | Bool(b: bool)
    | Int(n: int)
    | Real(token: bytes, integral: bool)
    | Str(s: bytes)
    | Arr(items: seq<Value>)
    | Obj(members: seq<Member>)

  /** An object is an ordered map: its members in the order of their keys. */
  datatype Member = Member(key: bytes, value: Value)

  const LIMIT := 1_000_000_000_000_000

  /** Byte-wise lexicographic order, the order in which an ordered map walks its keys. */
  predicate Less(a: bytes, b: bytes) {
    if b == [] then false
    else if a == [] then true
    else a[0] < b[0] || (a[0] == b[0] && Less(a[1..], b[1..]))
  }

  /** `object[key] = value`. */
  function Insert(members: seq<Member>, key: bytes, value: Value): seq<Member> {
    if members == [] || Less(key, members[0].key) then [Member(key, value)] + members
    else if members[0].key == key then [Member(key, value)] + members[1..]
    else [members[0]] + Insert(members[1..], key, value)
  }

  ghost predicate Sorted(members: seq<Member>) {
    forall i, j :: 0 <= i < j < |members| ==> Less(members[i].key, members[j].key)
  }

  /** Sorted at every level: what an ordered map can hold. */
  ghost predicate WellFormed(v: Value) {
    match v
    case Arr(items) => forall i :: 0 <= i < |items| ==> WellFormed(items[i])
    case Obj(members) => Sorted(members) && forall i :: 0 <= i < |members| ==> WellFormed(members[i].value)
    case _ => true
  }

  /** Every number is integral and below 1e15 in magnitude. */
  ghost predicate Integral(v: Value) {
    match v
    case Int(n) => -LIMIT < n < LIMIT
    case Real(_, _) => false
    case Arr(items) => forall i :: 0 <= i < |items| ==> Integral(items[i])
    case Obj(members) => forall i :: 0 <= i < |members| ==> Integral(members[i].value)
    case _ => true
  }

  // ---- the printer ----

  const QUOTE: byte := 34
  const COMMA: byte := 44
  const COLON: byte := 58
  const OPEN_BRACKET: byte := 91
  const BACKSLASH: byte := 92
  const CLOSE_BRACKET: byte := 93
  const LOWER_U: byte := 117
  const OPEN_BRACE: byte := 123
  const CLOSE_BRACE: byte := 125
  const MINUS: byte := 45
  const PLUS: byte := 43

  const TRUE_TEXT: bytes := [116, 114, 117, 101]
  const FALSE_TEXT: bytes := [102, 97, 108, 115, 101]
  const NULL_TEXT: bytes := [110, 117, 108, 108]

  /** One byte of a string literal; bytes from 0x20 up pass through. */
  function EscapeByte(c: byte): bytes {
    if c == QUOTE then [BACKSLASH, QUOTE]
    else if c == BACKSLASH then [BACKSLASH, BACKSLASH]
    else if c == 8 then [BACKSLASH, 98]
    else if c == 12 then [BACKSLASH, 102]
    else if c == 10 then [BACKSLASH, 110]
    else if c == 13 then [BACKSLASH, 114]
    else if c == 9 then [BACKSLASH, 116]
    else if c < 32 then [BACKSLASH, LOWER_U, 48, 48, HexDigit(c / 16), HexDigit(c % 16)]
    else [c]
  }

  function EscapeBytes(s: bytes): bytes {
    if s == [] then [] else EscapeByte(s[0]) + EscapeBytes(s[1..])
  }

  function Escape(s: bytes): bytes {
    [QUOTE] + EscapeBytes(s) + [QUOTE]
  }

  function Digits(n: nat): (d: bytes)
    ensures d != []
  {
    if n < 10 then [48 + n] else Digits(n / 10) + [48 + n % 10]
  }

  function Decimal(n: int): bytes {
    if n < 0 then [MINUS] + Digits(-n) else Digits(n)
  }

  ghost function Dump(v: Value): bytes
    requires Integral(v)
    decreases v, 0
  {
    match v
    case Null => NULL_TEXT
    case Bool(b) => if b then TRUE_TEXT else FALSE_TEXT
    case Int(n) => Decimal(n)
    case Str(s) => Escape(s)
    case Arr(items) =>
      [OPEN_BRACKET] + (if items == [] then [] else Dump(items[0]) + DumpItems(items[1..])) + [CLOSE_BRACKET]
    case Obj(members) =>
      [OPEN_BRACE] + (if members == [] then [] else DumpMember(members[0]) + DumpMembers(members[1..])) + [CLOSE_BRACE]
  }

  /** The items after the first, each behind a comma. */
  ghost function DumpItems(items: seq<Value>): bytes
    requires forall i :: 0 <= i < |items| ==> Integral(items[i])
    decreases items, 1
  {
    if items == [] then [] else [COMMA] + Dump(items[0]) + DumpItems(items[1..])
  }

  ghost function DumpMember(m: Member): bytes
    requires Integral(m.value)
    decreases m, 1
  {
    Escape(m.key) + [COLON] + Dump(m.value)
  }

  ghost function DumpMembers(members: seq<Member>): bytes
    requires forall i :: 0 <= i < |members| ==> Integral(members[i].value)
    decreases members, 2
  {
    if members == [] then [] else [COMMA] + DumpMember(members[0]) + DumpMembers(members[1..])
  }

  // ---- the parser ----

  datatype Error =
    | ExpectedString | UnterminatedString | UnterminatedEscape | UnknownEscape
    | TruncatedUnicode | BadHexDigit
    | UnexpectedEnd | ExpectedColon | ExpectedCommaOrBrace | ExpectedCommaOrBracket | InvalidValue

  datatype Result<+T> = Ok(value: T, rest: bytes) | Fail(error: Error, left: nat)

  predicate IsSpace(c: byte) {
    c == 32 || c == 9 || c == 10 || c == 13
  }

  function SkipSpace(s: bytes): (r: bytes)
    ensures |r| <= |s| && (r == [] || !IsSpace(r[0]))
  {
    if s != [] && IsSpace(s[0]) then SkipSpace(s[1..]) else s
  }

  /** `k` hex digits onto the accumulator `acc`. */
  function HexDigits(s: bytes, k: nat, acc: nat): (r: Result<nat>)
    requires |s| >= k
    ensures r.Ok? ==> |r.rest| == |s| - k
    ensures r.Fail? ==> r.left <= |s|
  {
    if k == 0 then Ok(acc, s)
    else match HexValue(s[0])
    case None => Fail(BadHexDigit, |s| - 1)
    case Some(d) => HexDigits(s[1..], k - 1, acc * 16 + d)
  }

  function Hex4(s: bytes): (r: Result<nat>)
    ensures r.Ok? ==> |r.rest| == |s| - 4
    ensures r.Fail? ==> r.left <= |s|
  {
    if |s| < 4 then Fail(TruncatedUnicode, |s|) else HexDigits(s, 4, 0)
  }

  /** UTF-8 (section 3 of RFC 3629); a code point above 0x1FFFFF cannot come from two escapes. */
  function Utf8(cp: nat): bytes
    requires cp < 0x11_0000
  {
    if cp < 0x80 then [cp]
    else if cp < 0x800 then [0xC0 + cp / 64, 0x80 + cp % 64]
    else if cp < 0x1_0000 then [0xE0 + cp / 4096, 0x80 + cp / 64 % 64, 0x80 + cp % 64]
    else [0xF0 + cp / 0x4_0000, 0x80 + cp / 4096 % 64, 0x80 + cp / 64 % 64, 0x80 + cp % 64]
  }

  predicate IsHighSurrogate(cp: nat) {
    0xD800 <= cp <= 0xDBFF
  }

  predicate IsLowSurrogate(cp: nat) {
    0xDC00 <= cp <= 0xDFFF
  }

  function Times16(k: nat, b: nat): nat {
    if k == 0 then b else Times16(k - 1, 16 * b)
  }

  lemma {:induction false} HexDigitsBound(s: bytes, k: nat, acc: nat, b: nat)
    requires |s| >= k && acc < b
    ensures var r := HexDigits(s, k, acc); r.Ok? ==> r.value < Times16(k, b)
  {
    if k > 0 && HexValue(s[0]).Some? {
      HexDigitsBound(s[1..], k - 1, acc * 16 + HexValue(s[0]).value, 16 * b);
    }
  }

  lemma Hex4Bound(s: bytes)
    ensures Hex4(s).Ok? ==> Hex4(s).value < 0x1_0000
  {
    if |s| >= 4 {
      HexDigitsBound(s, 4, 0, 1);
      assert Times16(4, 1) == Times16(2, 256) == 0x1_0000;
    }
  }

  /** What follows `\\u`: one code unit, or two when they are a surrogate pair. A low surrogate that is not
      one is emitted before the first unit, as the code does. */
  function UnicodeEscape(s: bytes): (r: Result<bytes>)
    ensures r.Ok? ==> |r.rest| < |s|
    ensures r.Fail? ==> r.left <= |s|
  {
    match Hex4(s)
    case Fail(e, left) => Fail(e, left)
    case Ok(cp, rest) =>
      Hex4Bound(s);
      if IsHighSurrogate(cp) && |rest| >= 2 && rest[0] == BACKSLASH && rest[1] == LOWER_U then
        (match Hex4(rest[2..])
         case Fail(e, left) => Fail(e, left)
         case Ok(lo, rest') =>
           Hex4Bound(rest[2..]);
           if IsLowSurrogate(lo) then Ok(Utf8(0x1_0000 + (cp - 0xD800) * 1024 + (lo - 0xDC00)), rest')
           else Ok(Utf8(lo) + Utf8(cp), rest'))
      else Ok(Utf8(cp), rest)
  }

  /** The one-letter escapes. */
  function SimpleEscape(e: byte): Option<byte> {
    if e == QUOTE || e == BACKSLASH || e == 47 then Some(e)
    else if e == 98 then Some(8)
    else if e == 102 then Some(12)
    else if e == 110 then Some(10)
    else if e == 114 then Some(13)
    else if e == 116 then Some(9)
    else None
  }

  function Prefix(head: bytes, r: Result<bytes>): Result<bytes> {
    if r.Ok? then r.(value := head + r.value) else r
  }

  /** The characters of a string after its opening quote. */
  function StringBody(s: bytes): (r: Result<bytes>)
    ensures r.Ok? ==> |r.rest| < |s|
    ensures r.Fail? ==> r.left <= |s|
    decreases |s|
  {
    if s == [] then Fail(UnterminatedString, 0)
    else if s[0] == QUOTE then Ok([], s[1..])
    else if s[0] != BACKSLASH then Prefix([s[0]], StringBody(s[1..]))
    else if |s| == 1 then Fail(UnterminatedEscape, 0)
    else if s[1] == LOWER_U then
      (match UnicodeEscape(s[2..])
       case Fail(e, left) => Fail(e, left)
       case Ok(text, rest) => Prefix(text, StringBody(rest)))
    else
      match SimpleEscape(s[1])
      case None => Fail(UnknownEscape, |s| - 2)
      case Some(c) => Prefix([c], StringBody(s[2..]))
  }

  function ParseString(s: bytes): (r: Result<bytes>)
    ensures r.Ok? ==> |r.rest| < |s|
    ensures r.Fail? ==> r.left <= |s|
  {
    if s == [] || s[0] != QUOTE then Fail(ExpectedString, |s|) else StringBody(s[1..])
  }

  /** Length of `.digits`, if any. */
  function FractionRun(s: bytes): (k: nat)
    ensures k <= |s|
  {
    if s != [] && s[0] == 46 then 1 + DigitRun(s[1..]) else 0
  }

  function SignRun(s: bytes): (k: nat)
    ensures k <= |s|
  {
    if s != [] && (s[0] == MINUS || s[0] == PLUS) then 1 else 0
  }

  /** Length of `e[+-]digits`, if any. */
  function ExponentRun(s: bytes): (k: nat)
    ensures k <= |s|
  {
    if s != [] && (s[0] == 101 || s[0] == 69) then
      1 + SignRun(s[1..]) + DigitRun(s[1 + SignRun(s[1..])..])
    else 0
  }

  /** The value of a number token: exact while it is integral and below 1e15. */
  function NumberOf(token: bytes, integral: bool): Value {
    var n := FromDigits(token[SignRun(token)..]);
    if integral && -LIMIT < n < LIMIT then Int(if token != [] && token[0] == MINUS then -n else n)
    else Real(token, integral)
  }

  function ParseNumber(s: bytes): (r: Result<Value>)
    ensures r.Ok? ==> |r.rest| < |s|
    ensures r.Fail? ==> r.left <= |s|
  {
    var sign := SignRun(s);
    var whole := DigitRun(s[sign..]);
    var frac := FractionRun(s[sign + whole..]);
    var exp := ExponentRun(s[sign + whole + frac..]);
    var end := sign + whole + frac + exp;
    if whole == 0 then Fail(InvalidValue, |s| - end)
    else Ok(NumberOf(s[..end], frac == 0 && exp == 0), s[end..])
  }

  predicate StartsWith(s: bytes, text: bytes) {
    text <= s
  }

  /** Strings, keywords and numbers. */
  function ParseScalar(t: bytes): (r: Result<Value>)
    ensures r.Ok? ==> |r.rest| < |t|
    ensures r.Fail? ==> r.left <= |t|
  {
    if t != [] && t[0] == QUOTE then
      (match ParseString(t)
       case Fail(e, left) => Fail(e, left)
       case Ok(text, rest) => Ok(Str(text), rest))
    else if StartsWith(t, TRUE_TEXT) then Ok(Bool(true), t[4..])
    else if StartsWith(t, FALSE_TEXT) then Ok(Bool(false), t[5..])
    else if StartsWith(t, NULL_TEXT) then Ok(Null, t[4..])
    else ParseNumber(t)
  }

  function ParseValue(s: bytes): (r: Result<Value>)
    ensures r.Ok? ==> |r.rest| < |s|
    ensures r.Fail? ==> r.left <= |s|
    decreases |s|, 0
  {
    var t := SkipSpace(s);
    if t == [] then Fail(UnexpectedEnd, 0)
    else if t[0] == OPEN_BRACE then ParseObject(t[1..])
    else if t[0] == OPEN_BRACKET then ParseArray(t[1..])
    else ParseScalar(t)
  }

  /** An object after its opening brace. */
  function ParseObject(s: bytes): (r: Result<Value>)
    ensures r.Ok? ==> |r.rest| < |s|
    ensures r.Fail? ==> r.left <= |s|
    decreases |s|, 3
  {
    var u := SkipSpace(s);
    if u != [] && u[0] == CLOSE_BRACE then Ok(Obj([]), u[1..]) else ParseMembers(u, [])
  }

  /** An array after its opening bracket. */
  function ParseArray(s: bytes): (r: Result<Value>)
    ensures r.Ok? ==> |r.rest| < |s|
    ensures r.Fail? ==> r.left <= |s|
    decreases |s|, 3
  {
    var u := SkipSpace(s);
    if u != [] && u[0] == CLOSE_BRACKET then Ok(Arr([]), u[1..]) else ParseItems(u, [])
  }

  /** One member: key, colon, value. */
  function ParseMember(s: bytes): (r: Result<Member>)
    ensures r.Ok? ==> |r.rest| < |s|
    ensures r.Fail? ==> r.left <= |s|
    decreases |s|, 1
  {
    match ParseString(SkipSpace(s))
    case Fail(e, left) => Fail(e, left)
    case Ok(key, rest) =>
      var t := SkipSpace(rest);
      if t == [] || t[0] != COLON then Fail(ExpectedColon, |t|)
      else match ParseValue(t[1..])
      case Fail(e, left) => Fail(e, left)
      case Ok(value, rest') => Ok(Member(key, value), rest')
  }

  /** The rest of an object, from its next member. */
  function ParseMembers(s: bytes, members: seq<Member>): (r: Result<Value>)
    ensures r.Ok? ==> |r.rest| < |s|
    ensures r.Fail? ==> r.left <= |s|
    decreases |s|, 2
  {
    match ParseMember(s)
    case Fail(e, left) => Fail(e, left)
    case Ok(m, rest) =>
      var u := SkipSpace(rest);
      var more := Insert(members, m.key, m.value);
      if u != [] && u[0] == COMMA then ParseMembers(u[1..], more)
      else if u != [] && u[0] == CLOSE_BRACE then Ok(Obj(more), u[1..])
      else Fail(ExpectedCommaOrBrace, |u|)
  }

  /** The rest of an array, from its next item. */
  function ParseItems(s: bytes, items: seq<Value>): (r: Result<Value>)
    ensures r.Ok? ==> |r.rest| < |s|
    ensures r.Fail? ==> r.left <= |s|
    decreases |s|, 1
  {
    match ParseValue(s)
    case Fail(e, left) => Fail(e, left)
    case Ok(value, rest) =>
      var u := SkipSpace(rest);
      if u != [] && u[0] == COMMA then ParseItems(u[1..], items + [value])
      else if u != [] && u[0] == CLOSE_BRACKET then Ok(Arr(items + [value]), u[1..])
      else Fail(ExpectedCommaOrBracket, |u|)
  }

  /** `parse`: one value and nothing but space behind it. */
  datatype Parsed = Document(value: Value) | Malformed(error: Error, at: nat) | TrailingData

  function Parse(text: bytes): Parsed {
    match ParseValue(text)
    case Fail(e, left) => Malformed(e, |text| - left)
    case Ok(v, rest) => if SkipSpace(rest) == [] then Document(v) else TrailingData
  }
}
