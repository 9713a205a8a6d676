/** The JSON code itself: the cursor-driven parser and the appending printer, proved against their functions. */
module JsonCode {
  import opened Bytes
  import opened Json

  class Parser {
    const input: bytes
    var i: nat
    var err: Option<(Error, nat)>

    ghost predicate Valid()
      reads this
    {
      i <= |input|
    }

    function Left(): bytes
      reads this
      requires Valid()
    {
      input[i..]
    }

    /** The cursor, the error and the result agree with a parse of what was left. */
    ghost predicate Agrees<T>(r: Result<T>, ok: bool, out: T)
      reads this
    {
      && Valid()
      && ok == r.Ok?
      && (r.Ok? ==> out == r.value && Left() == r.rest && err == None)
      && (r.Fail? ==> err == Some((r.error, |input| - r.left)))
    }

    constructor (text: bytes)
      ensures Valid() && i == 0 && Left() == text && err == None
    {
      input, i, err := text, 0, None;
      new;
      assert input[0..] == text;
    }

    /** Records the first error, with the offset of the cursor. */
    method Fail(e: Error)
      requires Valid()
      modifies this`err
      ensures err == if old(err) == None then Some((e, i)) else old(err)
    {
      if err == None {
        err := Some((e, i));
      }
    }

    method Space()
      requires Valid()
      modifies this`i
      ensures Valid() && Left() == SkipSpace(old(Left()))
    {
      while i < |input| && IsSpace(input[i])
        invariant Valid() && SkipSpace(Left()) == SkipSpace(old(Left()))
      {
        assert Left()[1..] == input[i + 1..];
        i := i + 1;
      }
    }

    method HexFour() returns (ok: bool, out: nat)
      requires Valid() && err == None
      modifies this
      ensures Agrees(Hex4(old(Left())), ok, out)
    {
      out := 0;
      if i + 4 > |input| {
        Fail(TruncatedUnicode);
        return false, out;
      }
      var k := 0;
      while k < 4
        invariant 0 <= k <= 4 && i + (4 - k) <= |input| && err == None
        invariant HexDigits(Left(), 4 - k, out) == Hex4(old(Left()))
      {
        ghost var before := Left();
        var c := input[i];
        i := i + 1;
        assert before[1..] == Left();
        var d := HexValue(c);
        if d == None {
          Fail(BadHexDigit);
          return false, out;
        }
        out := out * 16 + d.value;
        k := k + 1;
      }
      ok := true;
    }

    /** After `\u`: one code unit, or a surrogate pair. */
    method Unicode() returns (ok: bool, out: bytes)
      requires Valid() && err == None
      modifies this
      ensures Agrees(UnicodeEscape(old(Left())), ok, out)
    {
      hide Hex4, Utf8;
      out := [];
      ghost var start := Left();
      Hex4Bound(start);
      var cp: nat;
      ok, cp := HexFour();
      if !ok {
        return;
      }
      if IsHighSurrogate(cp) && i + 1 < |input| && input[i] == BACKSLASH && input[i + 1] == LOWER_U {
        assert Left()[2..] == input[i + 2..];
        i := i + 2;
        Hex4Bound(Left());
        var lo: nat;
        ok, lo := HexFour();
        if !ok {
          return;
        }
        if IsLowSurrogate(lo) {
          cp := 0x1_0000 + (cp - 0xD800) * 1024 + (lo - 0xDC00);
        } else {
          out := out + Utf8(lo);
          assert out == Utf8(lo);
        }
      }
      ghost var before := out;
      out := out + Utf8(cp);
      assert before == [] ==> out == Utf8(cp);
    }

    method Literal() returns (ok: bool, out: bytes)
      requires Valid() && err == None
      modifies this
      ensures Agrees(ParseString(old(Left())), ok, out)
    {
      hide UnicodeEscape, SimpleEscape;
      out := [];
      if i >= |input| || input[i] != QUOTE {
        Fail(ExpectedString);
        return false, out;
      }
      assert Left()[1..] == input[i + 1..];
      i := i + 1;
      NoPrefix(StringBody(Left()));
      while true
        invariant Valid() && err == None
        invariant Prefix(out, StringBody(Left())) == ParseString(old(Left()))
        decreases |input| - i
      {
        ghost var s := Left();
        if i >= |input| {
          Fail(UnterminatedString);
          return false, out;
        }
        var c := input[i];
        i := i + 1;
        assert s[1..] == Left();
        if c == QUOTE {
          assert out + [] == out;
          return true, out;
        }
        if c != BACKSLASH {
          PrefixTwice(out, [c], StringBody(Left()));
          out := out + [c];
          continue;
        }
        var good, text := Escape();
        EscapeStep(s);
        if !good {
          return false, out;
        }
        PrefixTwice(out, text, StringBody(Left()));
        out := out + text;
      }
    }

    /** What follows a backslash. */
    method Escape() returns (ok: bool, text: bytes)
      requires Valid() && err == None
      modifies this
      ensures Agrees(Escaped(old(Left())), ok, text)
    {
      hide UnicodeEscape, SimpleEscape;
      text := [];
      if i >= |input| {
        Fail(UnterminatedEscape);
        return false, text;
      }
      ghost var s := Left();
      var e := input[i];
      i := i + 1;
      assert s[1..] == Left();
      if e == LOWER_U {
        ok, text := Unicode();
        return;
      }
      var simple := SimpleEscape(e);
      if simple == None {
        Fail(UnknownEscape);
        return false, text;
      }
      ok, text := true, [simple.value];
    }

    method Run()
      requires Valid()
      modifies this`i
      ensures i == old(i) + DigitRun(old(Left())) <= |input|
    {
      while i < |input| && IsDigit(input[i])
        invariant old(i) <= i <= |input|
        invariant i + DigitRun(Left()) == old(i) + DigitRun(old(Left()))
      {
        assert Left()[1..] == input[i + 1..];
        i := i + 1;
      }
    }

    method Sign()
      requires Valid()
      modifies this`i
      ensures i == old(i) + SignRun(old(Left())) <= |input|
    {
      if i < |input| && (input[i] == MINUS || input[i] == PLUS) {
        i := i + 1;
      }
    }

    /** `.digits`, if any; tells whether it was there. */
    method Fraction() returns (present: bool)
      requires Valid()
      modifies this`i
      ensures i == old(i) + FractionRun(old(Left())) <= |input| && (present <==> i > old(i))
    {
      present := i < |input| && input[i] == 46;
      if present {
        assert Left()[1..] == input[i + 1..];
        i := i + 1;
        Run();
      }
    }

    /** `e[+-]digits`, if any; tells whether it was there. */
    method Exponent() returns (present: bool)
      requires Valid()
      modifies this`i
      ensures i == old(i) + ExponentRun(old(Left())) <= |input| && (present <==> i > old(i))
    {
      present := i < |input| && (input[i] == 101 || input[i] == 69);
      if present {
        ghost var s, start := Left(), i;
        assert s[1..] == input[i + 1..];
        i := i + 1;
        Sign();
        assert s[i - start..] == Left();
        Run();
      }
    }

    /** Scans a number token: were there digits, and is it free of fraction and exponent? */
    method Token() returns (any: bool, integral: bool)
      requires Valid()
      modifies this`i
      ensures var s := old(Left());
        var sign := SignRun(s);
        var whole := DigitRun(s[sign..]);
        var frac := FractionRun(s[sign + whole..]);
        var exp := ExponentRun(s[sign + whole + frac..]);
        && i == old(i) + sign + whole + frac + exp <= |input|
        && any == (whole > 0) && integral == (frac == 0 && exp == 0)
    {
      hide DigitRun, FractionRun, ExponentRun, SignRun;
      ghost var s, start := Left(), i;
      Sign();
      var digits := i;
      assert s[i - start..] == Left();
      Run();
      any := i > digits;
      assert s[i - start..] == Left();
      var fraction := Fraction();
      assert s[i - start..] == Left();
      var exponent := Exponent();
      integral := !fraction && !exponent;
    }

    method Number() returns (ok: bool, out: Value)
      requires Valid() && err == None
      modifies this
      ensures Agrees(ParseNumber(old(Left())), ok, out)
    {
      hide DigitRun, NumberOf, FractionRun, ExponentRun, SignRun;
      ghost var s := Left();
      var start := i;
      var any, integral := Token();
      assert s[i - start..] == Left();
      if !any {
        Fail(InvalidValue);
        return false, Null;
      }
      assert input[start..i] == s[..i - start];
      return true, NumberOf(input[start..i], integral);
    }

    /** Does `text` stand at the cursor? Steps over it if it does. */
    method Keyword(text: bytes) returns (found: bool)
      requires Valid()
      modifies this`i
      ensures Valid() && found == StartsWith(old(Left()), text)
      ensures Left() == if found then old(Left())[|text|..] else old(Left())
    {
      found := i + |text| <= |input| && input[i..i + |text|] == text;
      assert i + |text| <= |input| ==> Left()[..|text|] == input[i..i + |text|];
      if found {
        assert Left()[|text|..] == input[i + |text|..];
        i := i + |text|;
      }
    }

    /** Steps over the byte c if it is next. */
    method Take(c: byte) returns (found: bool)
      requires Valid()
      modifies this`i
      ensures Valid() && found == (old(Left()) != [] && old(Left())[0] == c)
      ensures Left() == if found then old(Left())[1..] else old(Left())
    {
      found := i < |input| && input[i] == c;
      if found {
        assert Left()[1..] == input[i + 1..];
        i := i + 1;
      }
    }

    method Value() returns (ok: bool, out: Json.Value)
      requires Valid() && err == None
      modifies this
      ensures Agrees(ParseValue(old(Left())), ok, out)
      decreases |input| - i, 0
    {
      hide ParseObject, ParseArray, ParseScalar, SkipSpace;
      Space();
      if i >= |input| {
        Fail(UnexpectedEnd);
        return false, Null;
      }
      var brace := Take(OPEN_BRACE);
      if brace {
        ok, out := Object();
        return;
      }
      var bracket := Take(OPEN_BRACKET);
      if bracket {
        ok, out := Array();
        return;
      }
      ok, out := Scalar();
    }

    /** One value, and then nothing but space. */
    method Document() returns (r: Parsed)
      requires Valid() && i == 0 && err == None
      modifies this
      ensures r == Parse(old(Left()))
    {
      hide ParseValue, SkipSpace;
      var ok, v := Value();
      if !ok {
        return Malformed(err.value.0, err.value.1);
      }
      Space();
      if i != |input| {
        return TrailingData;
      }
      return Json.Document(v);
    }

    method Object() returns (ok: bool, out: Json.Value)
      requires Valid() && err == None
      modifies this
      ensures Agrees(ParseObject(old(Left())), ok, out)
      decreases |input| - i, 3
    {
      hide ParseMembers, SkipSpace;
      Space();
      var empty := Take(CLOSE_BRACE);
      if empty {
        return true, Obj([]);
      }
      ok, out := Members();
    }

    method Array() returns (ok: bool, out: Json.Value)
      requires Valid() && err == None
      modifies this
      ensures Agrees(ParseArray(old(Left())), ok, out)
      decreases |input| - i, 3
    {
      hide ParseItems, SkipSpace;
      Space();
      var empty := Take(CLOSE_BRACKET);
      if empty {
        return true, Arr([]);
      }
      ok, out := Items();
    }

    /** Strings, keywords and numbers. */
    method Scalar() returns (ok: bool, out: Json.Value)
      requires Valid() && err == None
      modifies this
      ensures Agrees(ParseScalar(old(Left())), ok, out)
    {
      hide ParseString, ParseNumber, StartsWith;
      if i < |input| && input[i] == QUOTE {
        var text: bytes;
        ok, text := Literal();
        return ok, Str(text);
      }
      var found := Keyword(TRUE_TEXT);
      if found {
        return true, Bool(true);
      }
      found := Keyword(FALSE_TEXT);
      if found {
        return true, Bool(false);
      }
      found := Keyword(NULL_TEXT);
      if found {
        return true, Null;
      }
      ok, out := Number();
    }

    method Member() returns (ok: bool, m: Json.Member)
      requires Valid() && err == None
      modifies this
      ensures Agrees(ParseMember(old(Left())), ok, m)
      decreases |input| - i, 1
    {
      hide ParseValue, ParseString, SkipSpace;
      m := Json.Member([], Null);
      ghost var r := ParseMember(Left());
      Space();
      var key: bytes;
      ok, key := Literal();
      if !ok {
        return;
      }
      Space();
      var colon := Take(COLON);
      if !colon {
        Fail(ExpectedColon);
        return false, m;
      }
      var v: Json.Value;
      ghost var value := ParseValue(Left());
      assert r == if value.Fail? then Result.Fail(value.error, value.left) else Ok(Json.Member(key, value.value), value.rest);
      hide ParseMember;
      ok, v := Value();
      if ok {
        m := Json.Member(key, v);
      }
    }

    /** Space, and then a comma or the byte that closes the container, if either is next. */
    method Separator(closing: byte) returns (comma: bool, close: bool)
      requires Valid() && closing != COMMA
      modifies this`i
      ensures var u := SkipSpace(old(Left()));
        && comma == (u != [] && u[0] == COMMA) && close == (u != [] && u[0] == closing)
        && Valid() && Left() == if comma || close then u[1..] else u
    {
      hide SkipSpace;
      Space();
      comma := Take(COMMA);
      close := false;
      if !comma {
        close := Take(closing);
      }
    }

    /** The loop over the members of an object. */
    method Members() returns (ok: bool, out: Json.Value)
      requires Valid() && err == None
      modifies this
      ensures Agrees(ParseMembers(old(Left()), []), ok, out)
      decreases |input| - i, 2
    {
      hide ParseMember, ParseMembers, Insert, SkipSpace;
      var members: seq<Json.Member> := [];
      while true
        invariant Valid() && err == None && i >= old(i)
        invariant ParseMembers(Left(), members) == ParseMembers(old(Left()), [])
        decreases |input| - i
      {
        MembersUnfold(Left(), members);
        var m: Json.Member;
        ok, m := Member();
        if !ok {
          return false, Null;
        }
        members := Insert(members, m.key, m.value);
        var comma, close := Separator(CLOSE_BRACE);
        if comma {
          continue;
        }
        if close {
          return true, Obj(members);
        }
        Fail(ExpectedCommaOrBrace);
        return false, Null;
      }
    }

    /** The loop over the items of an array. */
    method Items() returns (ok: bool, out: Json.Value)
      requires Valid() && err == None
      modifies this
      ensures Agrees(ParseItems(old(Left()), []), ok, out)
      decreases |input| - i, 1
    {
      hide ParseValue, ParseItems, SkipSpace;
      var items: seq<Json.Value> := [];
      while true
        invariant Valid() && err == None && i >= old(i)
        invariant ParseItems(Left(), items) == ParseItems(old(Left()), [])
        decreases |input| - i
      {
        ItemsUnfold(Left(), items);
        var v: Json.Value;
        ok, v := Value();
        if !ok {
          return false, Null;
        }
        items := items + [v];
        var comma, close := Separator(CLOSE_BRACKET);
        if comma {
          continue;
        }
        if close {
          return true, Arr(items);
        }
        Fail(ExpectedCommaOrBracket);
        return false, Null;
      }
    }
  }

  /** One round of the loop over members. */
  lemma MembersUnfold(s: bytes, members: seq<Member>)
    ensures var r := ParseMember(s);
      ParseMembers(s, members) == if r.Fail? then Result.Fail(r.error, r.left) else
                                  MembersBehind(SkipSpace(r.rest), Insert(members, r.value.key, r.value.value))
  {
    hide ParseMember, Insert, SkipSpace;
  }

  function MembersBehind(u: bytes, members: seq<Member>): Result<Json.Value> {
    if u != [] && u[0] == COMMA then ParseMembers(u[1..], members)
    else if u != [] && u[0] == CLOSE_BRACE then Ok(Obj(members), u[1..])
    else Result.Fail(ExpectedCommaOrBrace, |u|)
  }

  /** And one over items. */
  lemma ItemsUnfold(s: bytes, items: seq<Json.Value>)
    ensures var r := ParseValue(s);
      ParseItems(s, items) == if r.Fail? then Result.Fail(r.error, r.left) else
                              ItemsBehind(SkipSpace(r.rest), items + [r.value])
  {
    hide ParseValue, SkipSpace;
  }

  function ItemsBehind(u: bytes, items: seq<Json.Value>): Result<Json.Value> {
    if u != [] && u[0] == COMMA then ParseItems(u[1..], items)
    else if u != [] && u[0] == CLOSE_BRACKET then Ok(Arr(items), u[1..])
    else Result.Fail(ExpectedCommaOrBracket, |u|)
  }

  /** One escape, behind its backslash. */
  function Escaped(s: bytes): (r: Result<bytes>)
    ensures r.Ok? ==> |r.rest| < |s|
    ensures r.Fail? ==> r.left <= |s|
  {
    if s == [] then Result.Fail(UnterminatedEscape, 0)
    else if s[0] == LOWER_U then UnicodeEscape(s[1..])
    else
      match SimpleEscape(s[0])
      case None => Result.Fail(UnknownEscape, |s| - 1)
      case Some(c) => Ok([c], s[1..])
  }

  lemma EscapeStep(s: bytes)
    requires s != [] && s[0] == BACKSLASH
    ensures StringBody(s)
         == match Escaped(s[1..])
            case Fail(e, left) => Result.Fail(e, left)
            case Ok(text, rest) => Prefix(text, StringBody(rest))
  {
    hide UnicodeEscape, SimpleEscape;
    if |s| > 1 {
      assert s[1..][1..] == s[2..];
    }
  }

  method ParseText(text: bytes) returns (r: Parsed)
    ensures r == Parse(text)
  {
    hide Parse;
    var p := new Parser(text);
    r := p.Document();
  }

  lemma NoPrefix(r: Result<bytes>)
    ensures Prefix([], r) == r
  {
    if r.Ok? {
      assert [] + r.value == r.value;
    }
  }

  lemma PrefixTwice(a: bytes, b: bytes, r: Result<bytes>)
    ensures Prefix(a, Prefix(b, r)) == Prefix(a + b, r)
  {
    if r.Ok? {
      assert a + (b + r.value) == (a + b) + r.value;
    }
  }

  // ---- the printer ----

  method EscapeTo(s: bytes, out: bytes) returns (out': bytes)
    ensures out' == out + Escape(s)
  {
    hide EscapeByte, EscapeBytes;
    NothingEscaped();
    assert s[0..] == s && s[|s|..] == [];
    out' := out + [QUOTE];
    for k := 0 to |s|
      invariant out' + EscapeBytes(s[k..]) == (out + [QUOTE]) + EscapeBytes(s)
    {
      EscapedNext(out', s, k);
      out' := out' + EscapeByte(s[k]);
    }
    assert out' + [] == out';
    out' := out' + [QUOTE];
    assert out' == out + Escape(s);
  }

  lemma NothingEscaped()
    ensures EscapeBytes([]) == []
  {}

  lemma EscapedNext(out: bytes, s: bytes, k: nat)
    requires k < |s|
    ensures out + EscapeBytes(s[k..]) == (out + EscapeByte(s[k])) + EscapeBytes(s[k + 1..])
  {
    hide EscapeByte;
    assert s[k..][1..] == s[k + 1..];
  }

  method DumpTo(v: Json.Value, out: bytes) returns (out': bytes)
    requires Integral(v)
    ensures out' == out + Dump(v)
    decreases v, 0
  {
    match v {
      case Null => out' := out + NULL_TEXT;
      case Bool(b) => out' := out + (if b then TRUE_TEXT else FALSE_TEXT);
      case Int(n) => out' := out + Decimal(n);
      case Real(_, _) => assert false; out' := out;
      case Str(s) => out' := EscapeTo(s, out);
      case Obj(members) =>
        out' := DumpMembersTo(members, out + [OPEN_BRACE]);
        out' := out' + [CLOSE_BRACE];
      case Arr(items) =>
        out' := DumpItemsTo(items, out + [OPEN_BRACKET]);
        out' := out' + [CLOSE_BRACKET];
    }
  }

  method DumpMemberTo(m: Member, out: bytes) returns (out': bytes)
    requires Integral(m.value)
    ensures out' == out + DumpMember(m)
    decreases m, 0
  {
    hide Dump, Escape;
    out' := EscapeTo(m.key, out);
    out' := out' + [COLON];
    out' := DumpTo(m.value, out');
  }

  method DumpMembersTo(members: seq<Member>, out: bytes) returns (out': bytes)
    requires forall i :: 0 <= i < |members| ==> Integral(members[i].value)
    ensures out' == out + MembersFrom(members, 0)
    decreases members, 1
  {
    hide DumpMember, MembersFrom;
    out' := out;
    for k := 0 to |members|
      invariant out' + MembersFrom(members, k) == out + MembersFrom(members, 0)
    {
      MembersStep(members, k);
      if k > 0 {
        out' := out' + [COMMA];
      }
      out' := DumpMemberTo(members[k], out');
    }
    NoMoreMembers(members);
  }

  method DumpItemsTo(items: seq<Json.Value>, out: bytes) returns (out': bytes)
    requires forall i :: 0 <= i < |items| ==> Integral(items[i])
    ensures out' == out + ItemsFrom(items, 0)
    decreases items, 1
  {
    hide Dump, ItemsFrom;
    out' := out;
    for k := 0 to |items|
      invariant out' + ItemsFrom(items, k) == out + ItemsFrom(items, 0)
    {
      ItemsStep(items, k);
      if k > 0 {
        out' := out' + [COMMA];
      }
      out' := DumpTo(items[k], out');
    }
    NoMoreItems(items);
  }

  /** What is still to be written when k items have been. */
  ghost function ItemsFrom(items: seq<Json.Value>, k: nat): bytes
    requires k <= |items| && forall i :: 0 <= i < |items| ==> Integral(items[i])
  {
    if items == [] then [] else if k == 0 then Dump(items[0]) + DumpItems(items[1..]) else DumpItems(items[k..])
  }

  lemma ItemsStep(items: seq<Json.Value>, k: nat)
    requires k < |items| && forall i :: 0 <= i < |items| ==> Integral(items[i])
    ensures ItemsFrom(items, k) == (if k == 0 then [] else [COMMA]) + (Dump(items[k]) + ItemsFrom(items, k + 1))
  {
    hide Dump;
    assert items[k..][1..] == items[k + 1..];
  }

  lemma NoMoreItems(items: seq<Json.Value>)
    requires forall i :: 0 <= i < |items| ==> Integral(items[i])
    ensures ItemsFrom(items, |items|) == []
  {}

  ghost function MembersFrom(members: seq<Member>, k: nat): bytes
    requires k <= |members| && forall i :: 0 <= i < |members| ==> Integral(members[i].value)
  {
    if members == [] then []
    else if k == 0 then DumpMember(members[0]) + DumpMembers(members[1..])
    else DumpMembers(members[k..])
  }

  lemma MembersStep(members: seq<Member>, k: nat)
    requires k < |members| && forall i :: 0 <= i < |members| ==> Integral(members[i].value)
    ensures MembersFrom(members, k)
         == (if k == 0 then [] else [COMMA]) + (DumpMember(members[k]) + MembersFrom(members, k + 1))
  {
    hide DumpMember;
    assert members[k..][1..] == members[k + 1..];
  }

  lemma NoMoreMembers(members: seq<Member>)
    requires forall i :: 0 <= i < |members| ==> Integral(members[i].value)
    ensures MembersFrom(members, |members|) == []
  {}
}
