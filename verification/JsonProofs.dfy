/** What the JSON printer writes, the parser reads back. */
module JsonProofs {
  import opened Bytes
  import opened Json

  // ---- strings ----

  lemma TwoByteEscapeReads(e: byte, c: byte, more: bytes)
    requires SimpleEscape(e) == Some(c)
    ensures StringBody([BACKSLASH, e] + more) == Prefix([c], StringBody(more))
  {
    assert e != LOWER_U;
    hide SimpleEscape, UnicodeEscape;
    assert ([BACKSLASH, e] + more)[2..] == more;
  }

  lemma EscapedByteReads(c: byte, more: bytes)
    ensures StringBody(EscapeByte(c) + more) == Prefix([c], StringBody(more))
  {
    var e := EscapeByte(c);
    if |e| == 6 {
      assert (e + more)[2..] == [48, 48, HexDigit(c / 16), HexDigit(c % 16)] + more;
      ControlEscapeReads(c, more);
      hide UnicodeEscape;
    } else if |e| == 2 {
      assert SimpleEscape(e[1]) == Some(c);
      TwoByteEscapeReads(e[1], c, more);
      hide StringBody;
    } else {
      hide UnicodeEscape, SimpleEscape;
      assert (e + more)[1..] == more;
    }
  }

  lemma HexStep(digit: byte, s: bytes, k: nat, acc: nat)
    requires k > 0 && HexValue(digit).Some? && |s| >= k - 1
    ensures HexDigits([digit] + s, k, acc) == HexDigits(s, k - 1, acc * 16 + HexValue(digit).value)
  {
    assert ([digit] + s)[1..] == s;
  }

  lemma ControlEscapeReads(c: byte, more: bytes)
    requires c < 32
    ensures UnicodeEscape([48, 48, HexDigit(c / 16), HexDigit(c % 16)] + more) == Ok([c], more)
  {
    var hi, lo := HexDigit(c / 16), HexDigit(c % 16);
    assert [48, 48, hi, lo] + more == [48] + ([48] + ([hi] + ([lo] + more)));
    HexStep(48, [48] + ([hi] + ([lo] + more)), 4, 0);
    HexStep(48, [hi] + ([lo] + more), 3, 0);
    HexStep(hi, [lo] + more, 2, 0);
    HexStep(lo, more, 1, c / 16);
  }

  /** Any byte string survives being written as a literal and read back, whatever follows. */
  lemma {:induction false} StringRoundTrip(s: bytes, rest: bytes)
    ensures StringBody(EscapeBytes(s) + [QUOTE] + rest) == Ok(s, rest)
  {
    if s == [] {
      assert [] + [QUOTE] + rest == [QUOTE] + rest;
    } else {
      var more := EscapeBytes(s[1..]) + [QUOTE] + rest;
      assert EscapeBytes(s) + [QUOTE] + rest == EscapeByte(s[0]) + more;
      EscapedByteReads(s[0], more);
      StringRoundTrip(s[1..], rest);
      assert [s[0]] + s[1..] == s;
    }
  }

  lemma LiteralRoundTrip(s: bytes, rest: bytes)
    ensures ParseString(Escape(s) + rest) == Ok(s, rest)
  {
    assert (Escape(s) + rest)[1..] == EscapeBytes(s) + [QUOTE] + rest;
    StringRoundTrip(s, rest);
  }

  // ---- numbers ----

  /** A number ends where neither a digit, a fraction nor an exponent continues it. */
  predicate EndsNumber(rest: bytes) {
    rest == [] || !(IsDigit(rest[0]) || rest[0] == 46 || rest[0] == 101 || rest[0] == 69)
  }

  lemma {:induction false} DigitsAreDigits(n: nat)
    ensures forall i :: 0 <= i < |Digits(n)| ==> IsDigit(Digits(n)[i])
    ensures FromDigits(Digits(n)) == n
  {
    var d := Digits(n);
    if n < 10 {
      assert d[..0] == [];
    } else {
      DigitsAreDigits(n / 10);
      assert d[..|d| - 1] == Digits(n / 10);
    }
  }

  /** A sign and digits, read as the number token they are. */
  lemma TokenReads(sign: bytes, d: bytes, rest: bytes)
    requires sign == [] || sign == [MINUS]
    requires d != [] && IsDigit(d[0]) && DigitRun(d + rest) == |d| && EndsNumber(rest)
    ensures var n := FromDigits(d);
      -LIMIT < n < LIMIT ==> ParseNumber(sign + d + rest) == Ok(Int(if sign == [] then n else -n), rest)
  {
    NothingContinues(rest);
    ThreeParts(sign, d, rest);
    SignReads(sign, d + rest);
    assert sign + (d + rest) == sign + d + rest;
    hide FromDigits, DigitRun, ParseNumber, FractionRun, ExponentRun, SignRun;
    var s := sign + d + rest;
    NoFractionNoExponent(s, |sign|, |d|);
  }

  lemma SignReads(sign: bytes, s: bytes)
    requires sign == [] || sign == [MINUS]
    requires s != [] && IsDigit(s[0])
    ensures SignRun(sign + s) == |sign| && ((sign + s)[0] == MINUS <==> sign != [])
  {}

  lemma NothingContinues(rest: bytes)
    requires EndsNumber(rest)
    ensures FractionRun(rest) == 0 && ExponentRun(rest) == 0
  {}

  /** With neither fraction nor exponent behind the digits, the token is the digits. */
  lemma NoFractionNoExponent(s: bytes, sign: nat, whole: nat)
    requires SignRun(s) == sign && DigitRun(s[sign..]) == whole > 0 && sign + whole <= |s|
    requires FractionRun(s[sign + whole..]) == 0 && ExponentRun(s[sign + whole..]) == 0
    ensures var n := FromDigits(s[sign..sign + whole]);
      -LIMIT < n < LIMIT ==> ParseNumber(s) == Ok(Int(if s[0] == MINUS then -n else n), s[sign + whole..])
  {
    assert SignRun(s[..sign + whole]) == sign;
    assert s[..sign + whole][sign..] == s[sign..sign + whole];
    hide FromDigits, DigitRun, FractionRun, ExponentRun, SignRun;
    assert s[sign + whole + 0..] == s[sign + whole..] && s[..sign + whole + 0 + 0] == s[..sign + whole];
  }

  lemma NumberRoundTrip(n: int, rest: bytes)
    requires -LIMIT < n < LIMIT && EndsNumber(rest)
    ensures ParseNumber(Decimal(n) + rest) == Ok(Int(n), rest)
  {
    hide ParseNumber, Digits, FromDigits;
    var magnitude := if n < 0 then -n else n;
    DigitsAreDigits(magnitude);
    DigitRunStops(Digits(magnitude), rest);
    TokenReads(if n < 0 then [MINUS] else [], Digits(magnitude), rest);
    assert [] + Digits(magnitude) == Digits(magnitude);
  }

  // ---- values ----

  /** A dump starts with something the parser will not skip or take for the end of a container. */
  lemma DumpStarts(v: Value)
    requires Integral(v)
    ensures Dump(v) != [] && !IsSpace(Dump(v)[0])
    ensures Dump(v)[0] != CLOSE_BRACKET && Dump(v)[0] != CLOSE_BRACE
  {
    if v.Int? {
      DigitsAreDigits(if v.n < 0 then -v.n else v.n);
    }
  }

  lemma KeywordsRoundTrip(v: Value, rest: bytes)
    requires v.Null? || v.Bool?
    ensures ParseValue(Dump(v) + rest) == Ok(v, rest)
  {
    var s := Dump(v) + rest;
    assert SkipSpace(s) == s;
    assert s[..|Dump(v)|] == Dump(v) && s[|Dump(v)|..] == rest;
  }

  lemma ScalarRoundTrip(v: Value, rest: bytes)
    requires v.Int? || v.Str?
    requires Integral(v) && (v.Int? ==> EndsNumber(rest))
    ensures ParseValue(Dump(v) + rest) == Ok(v, rest)
  {
    if v.Int? {
      NumberStarts(v.n, rest);
      NumberRoundTrip(v.n, rest);
      hide Decimal, ParseNumber, StartsWith, ParseValue;
      ValueIsScalar(Decimal(v.n) + rest);
    } else {
      LiteralStarts(v.s, rest);
      LiteralRoundTrip(v.s, rest);
      hide Escape, ParseString, ParseValue;
      ValueIsScalar(Escape(v.s) + rest);
    }
  }

  lemma ValueIsScalar(s: bytes)
    requires s != [] && !IsSpace(s[0]) && s[0] != OPEN_BRACE && s[0] != OPEN_BRACKET
    ensures ParseValue(s) == ParseScalar(s)
  {
    hide ParseObject, ParseArray, ParseScalar;
    assert SkipSpace(s) == s;
  }

  /** A printed number starts like none of the other values. */
  lemma NumberStarts(n: int, rest: bytes)
    ensures var s := Decimal(n) + rest;
      && s != [] && (IsDigit(s[0]) || s[0] == MINUS)
      && !StartsWith(s, TRUE_TEXT) && !StartsWith(s, FALSE_TEXT) && !StartsWith(s, NULL_TEXT)
  {
    DigitsAreDigits(if n < 0 then -n else n);
    hide Digits;
    assert (Decimal(n) + rest)[0] == Decimal(n)[0];
  }

  /** Appending in key order: inserting a key above all others puts it last. */
  lemma {:induction false} InsertLast(members: seq<Member>, key: bytes, value: Value)
    requires forall i :: 0 <= i < |members| ==> Less(members[i].key, key)
    ensures Insert(members, key, value) == members + [Member(key, value)]
  {
    if members != [] {
      LessIsStrict(members[0].key, key);
      InsertLast(members[1..], key, value);
      assert members == [members[0]] + members[1..];
    }
  }

  lemma {:induction false} LessIsStrict(a: bytes, b: bytes)
    requires Less(a, b)
    ensures a != b && !Less(b, a)
  {
    if a != [] && a[0] == b[0] {
      LessIsStrict(a[1..], b[1..]);
    }
  }

  /** A bracket or a brace opens a container: empty at once, or parsed from its first element. */
  lemma ContainerReads(body: bytes)
    requires body != [] && !IsSpace(body[0])
    ensures ParseValue([OPEN_BRACKET] + body)
         == if body[0] == CLOSE_BRACKET then Ok(Arr([]), body[1..]) else ParseItems(body, [])
    ensures ParseValue([OPEN_BRACE] + body)
         == if body[0] == CLOSE_BRACE then Ok(Obj([]), body[1..]) else ParseMembers(body, [])
  {
    hide ParseItems, ParseMembers, ParseNumber, ParseString;
    assert ([OPEN_BRACKET] + body)[1..] == body && ([OPEN_BRACE] + body)[1..] == body;
    assert SkipSpace(body) == body;
  }

  /** The heart of the round trip: a dump followed by any legal continuation parses to its value and stops
      exactly at the end of the dump. */
  lemma {:induction false} ValueRoundTrip(v: Value, rest: bytes)
    requires WellFormed(v) && Integral(v) && (v.Int? ==> EndsNumber(rest))
    ensures ParseValue(Dump(v) + rest) == Ok(v, rest)
    decreases v, 0
  {
    hide Dump, ParseValue;
    match v
    case Arr(items) => ArrayRoundTrip(items, rest);
    case Obj(members) => ObjectRoundTrip(members, rest);
    case Real(_, _) =>
    case Null => KeywordsRoundTrip(v, rest);
    case Bool(_) => KeywordsRoundTrip(v, rest);
    case Int(_) => ScalarRoundTrip(v, rest);
    case Str(_) => ScalarRoundTrip(v, rest);
  }

  lemma {:induction false} ArrayRoundTrip(items: seq<Value>, rest: bytes)
    requires forall i :: 0 <= i < |items| ==> WellFormed(items[i]) && Integral(items[i])
    ensures ParseValue(Dump(Arr(items)) + rest) == Ok(Arr(items), rest)
    decreases items, 2
  {
    hide ParseItems, ParseMembers, ParseValue, WellFormed, DumpItems;
    var body := (if items == [] then [] else Dump(items[0]) + DumpItems(items[1..])) + [CLOSE_BRACKET] + rest;
    assert Dump(Arr(items)) + rest == [OPEN_BRACKET] + body;
    if items != [] {
      DumpStarts(items[0]);
      ItemsRoundTrip(items, [], rest);
      assert [] + items == items;
    }
    ContainerReads(body);
  }

  lemma {:induction false} ObjectRoundTrip(members: seq<Member>, rest: bytes)
    requires Sorted(members)
    requires forall i :: 0 <= i < |members| ==> WellFormed(members[i].value) && Integral(members[i].value)
    ensures ParseValue(Dump(Obj(members)) + rest) == Ok(Obj(members), rest)
    decreases members, 2
  {
    hide ParseItems, ParseMembers, ParseValue, WellFormed, DumpMembers, EscapeBytes;
    var body := (if members == [] then [] else DumpMember(members[0]) + DumpMembers(members[1..])) + [CLOSE_BRACE] + rest;
    assert Dump(Obj(members)) + rest == [OPEN_BRACE] + body;
    if members != [] {
      assert [] + members == members;
      MembersRoundTrip(members, [], rest);
    }
    ContainerReads(body);
  }

  lemma {:induction false} ItemsRoundTrip(items: seq<Value>, done: seq<Value>, rest: bytes)
    requires items != []
    requires forall i :: 0 <= i < |items| ==> WellFormed(items[i]) && Integral(items[i])
    ensures ParseItems(Dump(items[0]) + DumpItems(items[1..]) + [CLOSE_BRACKET] + rest, done)
         == Ok(Arr(done + items), rest)
    decreases items, 1
  {
    hide Dump, ParseValue, WellFormed, Integral;
    var after := DumpItems(items[1..]) + [CLOSE_BRACKET] + rest;
    var s := Dump(items[0]) + DumpItems(items[1..]) + [CLOSE_BRACKET] + rest;
    assert s == Dump(items[0]) + after;
    assert SkipSpace(after) == after;
    ValueRoundTrip(items[0], after);
    if |items| > 1 {
      var more := items[1..];
      assert after[1..] == Dump(more[0]) + DumpItems(more[1..]) + [CLOSE_BRACKET] + rest;
      ItemsRoundTrip(more, done + [items[0]], rest);
      assert done + [items[0]] + more == done + items;
    } else {
      assert after[1..] == rest;
      assert done + [items[0]] == done + items;
    }
  }

  /** One member read: its key, the colon, its value, and what separates it from the next. */
  lemma MemberReads(s: bytes, done: seq<Member>, m: Member, text: bytes, after: bytes)
    requires s != [] && !IsSpace(s[0]) && ParseString(s) == Ok(m.key, [COLON] + text)
    requires ParseValue(text) == Ok(m.value, after)
    requires after != [] && (after[0] == COMMA || after[0] == CLOSE_BRACE)
    ensures ParseMembers(s, done)
         == var more := Insert(done, m.key, m.value);
            if after[0] == COMMA then ParseMembers(after[1..], more) else Ok(Obj(more), after[1..])
  {
    MemberParses(s, m, text, after);
    assert SkipSpace(after) == after;
    hide ParseMember, Insert, SkipSpace;
  }

  lemma MemberParses(s: bytes, m: Member, text: bytes, after: bytes)
    requires s != [] && !IsSpace(s[0]) && ParseString(s) == Ok(m.key, [COLON] + text)
    requires ParseValue(text) == Ok(m.value, after)
    ensures ParseMember(s) == Ok(m, after)
  {
    assert SkipSpace(s) == s && SkipSpace([COLON] + text) == [COLON] + text;
    assert ([COLON] + text)[1..] == text;
    hide ParseValue, ParseString, SkipSpace;
  }

  lemma DumpMembersHead(members: seq<Member>)
    requires forall i :: 0 <= i < |members| ==> Integral(members[i].value)
    ensures DumpMembers(members)
         == if members == [] then [] else [COMMA] + DumpMember(members[0]) + DumpMembers(members[1..])
  {}

  lemma InsertNext(done: seq<Member>, members: seq<Member>)
    requires members != [] && Sorted(done + members)
    ensures Insert(done, members[0].key, members[0].value) == done + [members[0]]
  {
    forall i | 0 <= i < |done| ensures Less(done[i].key, members[0].key) {
      assert (done + members)[i] == done[i] && (done + members)[|done|] == members[0];
    }
    InsertLast(done, members[0].key, members[0].value);
  }

  lemma {:induction false} MembersRoundTrip(members: seq<Member>, done: seq<Member>, rest: bytes)
    requires members != [] && Sorted(done + members)
    requires forall i :: 0 <= i < |members| ==> WellFormed(members[i].value) && Integral(members[i].value)
    ensures ParseMembers(DumpMember(members[0]) + DumpMembers(members[1..]) + [CLOSE_BRACE] + rest, done)
         == Ok(Obj(done + members), rest)
    decreases members, 1
  {
    hide Dump, ParseValue, WellFormed, Integral, ParseString, EscapeBytes, Insert, Less, SkipSpace, ParseMembers, DumpMembers;
    hide DumpMember, Escape, Sorted;
    var m, more := members[0], members[1..];
    var after := DumpMembers(more) + [CLOSE_BRACE] + rest;
    var text := Dump(m.value) + after;
    MemberText(m, DumpMembers(more), [CLOSE_BRACE], rest);
    LiteralRoundTrip(m.key, [COLON] + text);
    AfterMember(more, rest);
    ValueRoundTrip(m.value, after);
    LiteralStarts(m.key, [COLON] + text);
    MemberReads(Escape(m.key) + ([COLON] + text), done, m, text, after);
    InsertNext(done, members);
    assert done + [m] + more == done + members;
    if more != [] {
      MembersRoundTrip(more, done + [m], rest);
    } else {
      assert done + [m] == done + members;
    }
  }

  lemma LiteralStarts(key: bytes, more: bytes)
    ensures Escape(key) + more != [] && (Escape(key) + more)[0] == QUOTE && !IsSpace(QUOTE)
  {
    hide EscapeBytes;
  }

  lemma MemberText(m: Member, a: bytes, b: bytes, c: bytes)
    requires Integral(m.value)
    ensures DumpMember(m) + a + b + c == Escape(m.key) + ([COLON] + (Dump(m.value) + (a + b + c)))
  {
    hide Dump, Escape, Integral;
  }

  /** What stands behind a member: a comma and the next one, or the brace. */
  lemma AfterMember(more: seq<Member>, rest: bytes)
    requires forall i :: 0 <= i < |more| ==> Integral(more[i].value)
    ensures var after := DumpMembers(more) + [CLOSE_BRACE] + rest;
      && after != []
      && (more == [] ==> after[0] == CLOSE_BRACE && after[1..] == rest)
      && (more != [] ==> after[0] == COMMA)
      && (more != [] ==> after[1..] == DumpMember(more[0]) + DumpMembers(more[1..]) + [CLOSE_BRACE] + rest)
  {
    hide DumpMember, DumpMembers, Integral;
    DumpMembersHead(more);
    if more == [] {
      BraceFirst(rest);
    } else {
      CommaFirst(DumpMember(more[0]), DumpMembers(more[1..]), [CLOSE_BRACE], rest);
    }
  }

  lemma BraceFirst(rest: bytes)
    ensures ([] + [CLOSE_BRACE] + rest)[0] == CLOSE_BRACE && ([] + [CLOSE_BRACE] + rest)[1..] == rest
  {}

  lemma CommaFirst(a: bytes, b: bytes, c: bytes, d: bytes)
    ensures var s := [COMMA] + a + b + c + d;
      s != [] && s[0] == COMMA && s[1..] == a + b + c + d
  {}

  /** `parse(dump(v)) == v`, with no error, for every nested value over arbitrary byte strings and keys. */
  lemma ParseDump(v: Value)
    requires WellFormed(v) && Integral(v)
    ensures Parse(Dump(v)) == Document(v)
  {
    ValueRoundTrip(v, []);
    assert Dump(v) + [] == Dump(v);
  }

  /** Hence two values never print alike. */
  lemma DumpIsInjective(v: Value, w: Value)
    requires WellFormed(v) && Integral(v) && WellFormed(w) && Integral(w)
    requires Dump(v) == Dump(w)
    ensures v == w
  {
    ParseDump(v);
    ParseDump(w);
  }
}
