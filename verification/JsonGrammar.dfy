/** The parser accepts exactly the texts of a grammar, each with its meaning: RFC 8259 with any blanks between tokens,
    made lenient for numbers and control characters as the code is. */
module JsonGrammar {
  import opened Bytes
  import opened Json
  import opened JsonProofs
  import opened JsonSpelling

  // ---- texts ----

  /** Space, tab, line feed and carriage return, any number of them. */
  type blank = b: bytes | forall i :: 0 <= i < |b| ==> b[i] == 32 || b[i] == 9 || b[i] == 10 || b[i] == 13 witness []

  datatype Spelling =
    | Nothing
    | Truth(b: bool)
    | Number(sign: bytes, whole: bytes, fraction: bytes, exponent: bytes)
    | Text(pieces: seq<Piece>)
    | List(items: seq<Item>, inside: blank)
    | Map(entries: seq<Entry>, inside: blank)

  /** A value with the blanks around it; `inside` above is for containers without any. */
  datatype Item = Item(before: blank, value: Spelling, after: blank)

  datatype Entry = Entry(before: blank, key: seq<Piece>, middle: blank, item: Item)

  ghost predicate AllDigits(s: bytes) {
    forall i :: 0 <= i < |s| ==> 48 <= s[i] <= 57
  }

  /** Digits with a sign, a fraction and an exponent, each of which may be missing, the last two also without digits. */
  ghost predicate ProperNumber(sign: bytes, whole: bytes, fraction: bytes, exponent: bytes) {
    && (sign == [] || sign == [43] || sign == [45])
    && whole != [] && AllDigits(whole)
    && (fraction != [] ==> fraction[0] == 46 && AllDigits(fraction[1..]))
    && (exponent != [] ==>
          && (exponent[0] == 101 || exponent[0] == 69)
          && (AllDigits(exponent[1..])
              || (|exponent| > 1 && (exponent[1] == 43 || exponent[1] == 45) && AllDigits(exponent[2..]))))
  }

  ghost predicate Proper(sp: Spelling) {
    match sp
    case Nothing => true
    case Truth(_) => true
    case Number(sign, whole, fraction, exponent) => ProperNumber(sign, whole, fraction, exponent)
    case Text(pieces) => ProperPieces(pieces)
    case List(items, _) => forall i :: 0 <= i < |items| ==> Proper(items[i].value)
    case Map(entries, _) => forall i :: 0 <= i < |entries| ==> ProperPieces(entries[i].key) && Proper(entries[i].item.value)
  }

  function Write(sp: Spelling): bytes
    decreases sp, 0
  {
    match sp
    case Nothing => [110, 117, 108, 108]
    case Truth(b) => if b then [116, 114, 117, 101] else [102, 97, 108, 115, 101]
    case Number(sign, whole, fraction, exponent) => sign + (whole + (fraction + exponent))
    case Text(pieces) => WriteText(pieces)
    case List(items, inside) =>
      [91] + ((if items == [] then inside else WriteItem(items[0]) + WriteItems(items[1..])) + [93])
    case Map(entries, inside) =>
      [123] + ((if entries == [] then inside else WriteEntry(entries[0]) + WriteEntries(entries[1..])) + [125])
  }

  function WriteText(pieces: seq<Piece>): bytes {
    [34] + (WritePieces(pieces) + [34])
  }

  function WriteItem(it: Item): bytes
    decreases it, 1
  {
    it.before + (Write(it.value) + it.after)
  }

  /** The items after the first, each behind a comma. */
  function WriteItems(items: seq<Item>): bytes
    decreases items, 2
  {
    if items == [] then [] else [44] + (WriteItem(items[0]) + WriteItems(items[1..]))
  }

  function WriteEntry(e: Entry): bytes
    decreases e, 2
  {
    e.before + (WriteText(e.key) + (e.middle + ([58] + WriteItem(e.item))))
  }

  function WriteEntries(entries: seq<Entry>): bytes
    decreases entries, 3
  {
    if entries == [] then [] else [44] + (WriteEntry(entries[0]) + WriteEntries(entries[1..]))
  }

  // ---- meanings ----

  /** An integer while it is one and below 1e15 in magnitude; otherwise the token for the floating-point reader. */
  function NumberMeaning(sign: bytes, whole: bytes, fraction: bytes, exponent: bytes): Value {
    var n := FromDigits(whole);
    if fraction == [] && exponent == [] && n < 1_000_000_000_000_000 then Int(if sign == [45] then -n else n)
    else Real(sign + (whole + (fraction + exponent)), fraction == [] && exponent == [])
  }

  ghost function Meaning(sp: Spelling): Value
    requires Proper(sp)
    decreases sp, 0
  {
    match sp
    case Nothing => Null
    case Truth(b) => Bool(b)
    case Number(sign, whole, fraction, exponent) => NumberMeaning(sign, whole, fraction, exponent)
    case Text(pieces) => Str(PiecesMeaning(pieces))
    case List(items, _) => Arr(Meanings(items))
    case Map(entries, _) => Obj(Gathered(entries, []))
  }

  ghost function Meanings(items: seq<Item>): seq<Value>
    requires forall i :: 0 <= i < |items| ==> Proper(items[i].value)
    decreases items, 1
  {
    if items == [] then [] else [Meaning(items[0].value)] + Meanings(items[1..])
  }

  /** Each entry assigned in turn: of two with one key the later one counts. */
  ghost function Gathered(entries: seq<Entry>, done: seq<Member>): seq<Member>
    requires forall i :: 0 <= i < |entries| ==> ProperPieces(entries[i].key) && Proper(entries[i].item.value)
    decreases entries, 1
  {
    if entries == [] then done
    else Gathered(entries[1..], Insert(done, PiecesMeaning(entries[0].key), Meaning(entries[0].item.value)))
  }

  // ---- blanks ----

  lemma {:induction false} BlanksAreSkipped(b: blank, s: bytes)
    ensures SkipSpace(b + s) == SkipSpace(s)
  {
    if b == [] {
      assert b + s == s;
    } else {
      assert (b + s)[1..] == b[1..] + s;
      BlanksAreSkipped(b[1..], s);
    }
  }

  lemma {:induction false} SkippedIsBlank(s: bytes) returns (b: blank)
    ensures s == b + SkipSpace(s)
  {
    if s != [] && IsSpace(s[0]) {
      var more := SkippedIsBlank(s[1..]);
      b := [s[0]] + more;
      assert s == [s[0]] + s[1..];
      assert b + SkipSpace(s) == [s[0]] + (more + SkipSpace(s[1..]));
    } else {
      b := [];
      assert b + s == s;
    }
  }

  /** Blanks in front of a value, a member or an item do not matter. */
  lemma BlanksInFront(b: blank, s: bytes)
    ensures ParseValue(b + s) == ParseValue(s)
    ensures ParseMember(b + s) == ParseMember(s)
  {
    BlanksAreSkipped(b, s);
    hide SkipSpace, ParseObject, ParseArray, ParseScalar, ParseString;
  }

  lemma SkippedInFront(s: bytes, done: seq<Value>, members: seq<Member>)
    ensures ParseItems(SkipSpace(s), done) == ParseItems(s, done)
    ensures ParseMembers(SkipSpace(s), members) == ParseMembers(s, members)
  {
    var b := SkippedIsBlank(s);
    BlanksInFront(b, SkipSpace(s));
    hide SkipSpace, ParseValue, ParseMember, Insert;
  }

  // ---- scalars ----

  /** What may stand behind a number. */
  predicate EndsToken(rest: bytes) {
    rest == [] || !(48 <= rest[0] <= 57 || rest[0] == 46 || rest[0] == 101 || rest[0] == 69 || rest[0] == 43 || rest[0] == 45)
  }

  lemma {:induction false} RunOfDigits(d: bytes, rest: bytes)
    requires AllDigits(d) && (rest == [] || !(48 <= rest[0] <= 57))
    ensures DigitRun(d + rest) == |d|
  {
    DigitRunStops(d, rest);
  }

  lemma FractionReads(fraction: bytes, rest: bytes)
    requires fraction != [] ==> fraction[0] == 46 && AllDigits(fraction[1..])
    requires rest == [] || !(48 <= rest[0] <= 57 || rest[0] == 46)
    ensures FractionRun(fraction + rest) == |fraction|
  {
    if fraction == [] {
      assert fraction + rest == rest;
    } else {
      assert (fraction + rest)[1..] == fraction[1..] + rest;
      RunOfDigits(fraction[1..], rest);
    }
  }

  lemma ExponentReads(exponent: bytes, rest: bytes)
    requires ProperNumber([], [48], [], exponent) && EndsToken(rest)
    ensures ExponentRun(exponent + rest) == |exponent|
  {
    var s := exponent + rest;
    if exponent == [] {
      assert s == rest;
    } else {
      assert s[1..] == exponent[1..] + rest;
      if |exponent| > 1 && (exponent[1] == 43 || exponent[1] == 45) {
        assert s[2..] == exponent[2..] + rest;
        RunOfDigits(exponent[2..], rest);
      } else {
        RunOfDigits(exponent[1..], rest);
        assert SignRun(s[1..]) == 0;
      }
    }
  }

  lemma {:induction false} DigitsAreNatural(d: bytes)
    requires AllDigits(d)
    ensures FromDigits(d) >= 0
  {
    if d != [] {
      DigitsAreNatural(d[..|d| - 1]);
    }
  }

  /** The parts of a number token at the front of a text, one behind the other. */
  lemma PartsRead(sign: bytes, whole: bytes, fraction: bytes, exponent: bytes, rest: bytes)
    requires ProperNumber(sign, whole, fraction, exponent) && EndsToken(rest)
    ensures SignRun(sign + (whole + (fraction + (exponent + rest)))) == |sign|
    ensures DigitRun(whole + (fraction + (exponent + rest))) == |whole|
    ensures FractionRun(fraction + (exponent + rest)) == |fraction|
    ensures ExponentRun(exponent + rest) == |exponent|
  {
    ExponentReads(exponent, rest);
    hide ExponentRun;
    FractionReads(fraction, exponent + rest);
    hide FractionRun;
    RunOfDigits(whole, fraction + (exponent + rest));
  }

  lemma Slices(a: bytes, b: bytes, c: bytes, d: bytes, rest: bytes)
    ensures var s := a + (b + (c + (d + rest)));
      && s[|a|..] == b + (c + (d + rest)) && s[|a| + |b|..] == c + (d + rest)
      && s[|a| + |b| + |c|..] == d + rest && s[|a| + |b| + |c| + |d|..] == rest
      && s[..|a| + |b| + |c| + |d|] == a + (b + (c + d))
      && s == a + (b + (c + d)) + rest
  {}

  lemma NotEmpty(sign: bytes, whole: bytes, fraction: bytes, exponent: bytes)
    requires ProperNumber(sign, whole, fraction, exponent)
    ensures |whole| > 0
  {}

  /** A number token ends where its parts do. */
  lemma TokenParses(s: bytes, sign: nat, whole: nat, frac: nat, exp: nat)
    requires sign + whole + frac + exp <= |s|
    requires SignRun(s) == sign && DigitRun(s[sign..]) == whole
    requires FractionRun(s[sign + whole..]) == frac && ExponentRun(s[sign + whole + frac..]) == exp
    ensures var end := sign + whole + frac + exp;
      ParseNumber(s) == if whole == 0 then Fail(InvalidValue, |s| - end) else
                        Ok(NumberOf(s[..end], frac == 0 && exp == 0), s[end..])
  {
    hide SignRun, DigitRun, FractionRun, ExponentRun, NumberOf;
  }

  lemma NumberReads(sign: bytes, whole: bytes, fraction: bytes, exponent: bytes, rest: bytes)
    requires ProperNumber(sign, whole, fraction, exponent) && EndsToken(rest)
    ensures ParseNumber(sign + (whole + (fraction + exponent)) + rest)
         == Ok(NumberMeaning(sign, whole, fraction, exponent), rest)
  {
    hide SignRun, DigitRun, FractionRun, ExponentRun, NumberOf, NumberMeaning, ParseNumber, ProperNumber, EndsToken;
    NotEmpty(sign, whole, fraction, exponent);
    PartsRead(sign, whole, fraction, exponent, rest);
    Slices(sign, whole, fraction, exponent, rest);
    NumberMeans(sign, whole, fraction, exponent);
    TokenParses(sign + (whole + (fraction + (exponent + rest))), |sign|, |whole|, |fraction|, |exponent|);
  }

  lemma NumberMeans(sign: bytes, whole: bytes, fraction: bytes, exponent: bytes)
    requires ProperNumber(sign, whole, fraction, exponent)
    ensures NumberOf(sign + (whole + (fraction + exponent)), |fraction| == 0 && |exponent| == 0)
         == NumberMeaning(sign, whole, fraction, exponent)
  {
    DigitsAreNatural(whole);
    hide FromDigits;
    var token := sign + (whole + (fraction + exponent));
    assert SignRun(token) == |sign|;
    if fraction == [] && exponent == [] {
      assert token[|sign|..] == whole;
      assert sign == [] ==> token[0] == whole[0];
    }
  }

  lemma {:induction false} RunIsDigits(s: bytes)
    ensures AllDigits(s[..DigitRun(s)])
  {
    if s != [] && IsDigit(s[0]) {
      RunIsDigits(s[1..]);
      var k := DigitRun(s[1..]);
      assert s[..1 + k] == [s[0]] + s[1..][..k];
    }
  }

  lemma ExponentFound(s: bytes)
    ensures ProperNumber([], [48], [], s[..ExponentRun(s)])
  {
    var e := s[..ExponentRun(s)];
    if e != [] {
      var k := SignRun(s[1..]);
      var d := DigitRun(s[1 + k..]);
      RunIsDigits(s[1 + k..]);
      assert e[1 + k..] == s[1 + k..][..d];
      hide DigitRun;
    }
  }

  lemma FractionFound(s: bytes)
    ensures ProperNumber([], [48], s[..FractionRun(s)], [])
  {
    var f := s[..FractionRun(s)];
    if f != [] {
      RunIsDigits(s[1..]);
      assert f[1..] == s[1..][..DigitRun(s[1..])];
      hide DigitRun;
    }
  }

  lemma FourParts(s: bytes, a: nat, b: nat, c: nat, d: nat)
    requires a + b + c + d <= |s|
    ensures var w, x, y, z := s[..a], s[a..][..b], s[a + b..][..c], s[a + b + c..][..d];
      s[..a + b + c + d] == w + (x + (y + z)) && s == w + (x + (y + z)) + s[a + b + c + d..]
  {}

  lemma PartsFound(s: bytes)
    requires ParseNumber(s).Ok?
    ensures var a := SignRun(s); var b := DigitRun(s[a..]); var c := FractionRun(s[a + b..]);
      var d := ExponentRun(s[a + b + c..]);
      && a + b + c + d <= |s| && b > 0
      && ProperNumber(s[..a], s[a..][..b], s[a + b..][..c], s[a + b + c..][..d])
  {
    hide DigitRun, FractionRun, ExponentRun, NumberOf, AllDigits, ProperNumber;
    var a := SignRun(s);
    var b := DigitRun(s[a..]);
    var c := FractionRun(s[a + b..]);
    RunIsDigits(s[a..]);
    FractionFound(s[a + b..]);
    ExponentFound(s[a + b + c..]);
    PartsTogether(s[..a], s[a..][..b], s[a + b..][..c], s[a + b + c..][..ExponentRun(s[a + b + c..])]);
  }

  lemma PartsTogether(sign: bytes, whole: bytes, fraction: bytes, exponent: bytes)
    requires sign == [] || sign == [43] || sign == [45]
    requires whole != [] && AllDigits(whole)
    requires ProperNumber([], [48], fraction, []) && ProperNumber([], [48], [], exponent)
    ensures ProperNumber(sign, whole, fraction, exponent)
  {}

  lemma NumberFound(s: bytes) returns (sp: Spelling)
    requires ParseNumber(s).Ok?
    ensures sp.Number? && Proper(sp) && s == Write(sp) + ParseNumber(s).rest && ParseNumber(s).value == Meaning(sp)
  {
    hide SignRun, DigitRun, FractionRun, ExponentRun, NumberOf, NumberMeaning, ParseNumber, ProperNumber;
    var a := SignRun(s);
    var b := DigitRun(s[a..]);
    var c := FractionRun(s[a + b..]);
    var d := ExponentRun(s[a + b + c..]);
    PartsFound(s);
    FourParts(s, a, b, c, d);
    TokenParses(s, a, b, c, d);
    var sign, whole, fraction, exponent := s[..a], s[a..][..b], s[a + b..][..c], s[a + b + c..][..d];
    NumberMeans(sign, whole, fraction, exponent);
    sp := Number(sign, whole, fraction, exponent);
  }

  // ---- what is written parses ----

  /** Where a value starts, the parser sees what kind it is. */
  lemma WriteStarts(sp: Spelling)
    requires Proper(sp)
    ensures var w := Write(sp);
      && w != [] && !IsSpace(w[0]) && w[0] != 93 && w[0] != 125
      && (w[0] == 123 <==> sp.Map?) && (w[0] == 91 <==> sp.List?) && (w[0] == 34 <==> sp.Text?)
  {
    hide WriteItem, WriteItems, WriteEntry, WriteEntries, WritePieces;
  }

  lemma WordParses(sp: Spelling, rest: bytes)
    requires sp.Nothing? || sp.Truth?
    ensures ParseScalar(Write(sp) + rest) == Ok(Meaning(sp), rest)
  {
    hide ParseString, ParseNumber;
    var s, n := Write(sp) + rest, |Write(sp)|;
    assert s[..n] == Write(sp) && s[n..] == rest;
  }

  lemma NumberParses(sp: Spelling, rest: bytes)
    requires Proper(sp) && sp.Number? && EndsToken(rest)
    ensures ParseScalar(Write(sp) + rest) == Ok(Meaning(sp), rest)
  {
    hide ParseNumber, NumberMeaning, ParseScalar, EndsToken, ProperNumber;
    NumberReads(sp.sign, sp.whole, sp.fraction, sp.exponent, rest);
    NumberFirst(sp.sign, sp.whole, sp.fraction, sp.exponent, rest);
    NumberIsScalar(Write(sp) + rest);
  }

  lemma NumberIsScalar(s: bytes)
    requires s != [] && (48 <= s[0] <= 57 || s[0] == 43 || s[0] == 45)
    ensures ParseScalar(s) == ParseNumber(s)
  {
    hide ParseNumber, ParseString;
    assert TRUE_TEXT[0] == 116 && FALSE_TEXT[0] == 102 && NULL_TEXT[0] == 110;
  }

  lemma NumberFirst(sign: bytes, whole: bytes, fraction: bytes, exponent: bytes, rest: bytes)
    requires ProperNumber(sign, whole, fraction, exponent)
    ensures var s := sign + (whole + (fraction + exponent)) + rest;
      s != [] && (48 <= s[0] <= 57 || s[0] == 43 || s[0] == 45)
  {
    var s := sign + (whole + (fraction + exponent)) + rest;
    assert s[0] == if sign == [] then whole[0] else sign[0];
  }

  /** A literal is read whole, whatever follows. */
  lemma TextReads(pieces: seq<Piece>, rest: bytes)
    requires ProperPieces(pieces)
    ensures ParseString(WriteText(pieces) + rest) == Ok(PiecesMeaning(pieces), rest)
    ensures SkipSpace(WriteText(pieces) + rest) == WriteText(pieces) + rest
    ensures WriteText(pieces) + rest != [] && (WriteText(pieces) + rest)[0] == 34
  {
    hide StringBody, PiecesMeaning, WritePieces, ProperPieces;
    PiecesRead(pieces, rest);
    var s := WriteText(pieces) + rest;
    assert s == [34] + (WritePieces(pieces) + ([34] + rest));
    assert s[1..] == WritePieces(pieces) + ([34] + rest);
  }

  lemma ScalarParses(sp: Spelling, rest: bytes)
    requires Proper(sp) && !sp.List? && !sp.Map? && (sp.Number? ==> EndsToken(rest))
    ensures ParseScalar(Write(sp) + rest) == Ok(Meaning(sp), rest)
  {
    match sp {
      case Number(_, _, _, _) =>
        hide ParseScalar, Write, Meaning, Proper;
        NumberParses(sp, rest);
      case Text(pieces) =>
        TextReads(pieces, rest);
        hide ParseString, PiecesMeaning, WriteText, ProperPieces;
      case _ =>
        hide ParseScalar, Write, Meaning;
        WordParses(sp, rest);
    }
  }

  /** Every proper spelling parses to its meaning, and the parser stops where it ends. */
  lemma {:induction false} SpellingParses(sp: Spelling, rest: bytes)
    requires Proper(sp) && (sp.Number? ==> EndsToken(rest))
    ensures ParseValue(Write(sp) + rest) == Ok(Meaning(sp), rest)
    decreases sp, 0
  {
    hide ParseValue, ParseScalar;
    WriteStarts(sp);
    match sp
    case List(items, inside) => ListParses(items, inside, rest);
    case Map(entries, inside) => MapParses(entries, inside, rest);
    case _ =>
      ScalarParses(sp, rest);
      ValueIsScalar(Write(sp) + rest);
  }

  lemma {:induction false} ListParses(items: seq<Item>, inside: blank, rest: bytes)
    requires forall i :: 0 <= i < |items| ==> Proper(items[i].value)
    ensures ParseValue(Write(List(items, inside)) + rest) == Ok(Arr(Meanings(items)), rest)
    decreases items, 3
  {
    hide ParseItems, Proper, WriteItem, WriteItems, Meanings;
    var body := (if items == [] then inside else WriteItem(items[0]) + WriteItems(items[1..])) + [93] + rest;
    assert Write(List(items, inside)) + rest == [91] + body;
    ListOpens(body);
    if items == [] {
      NoItems();
      assert body == inside + ([93] + rest);
      BlanksAreSkipped(inside, [93] + rest);
      CloserStays(93, rest);
    } else {
      ItemsParse(items, [], rest);
      assert [] + Meanings(items) == Meanings(items);
      ItemStarts(items[0], WriteItems(items[1..]) + [93] + rest);
      assert body == WriteItem(items[0]) + (WriteItems(items[1..]) + [93] + rest);
      SkippedInFront(body, [], []);
    }
  }

  lemma NoItems()
    ensures Meanings([]) == [] && Gathered([], []) == []
  {}

  lemma CloserStays(c: byte, rest: bytes)
    requires c == 93 || c == 125 || c == 44 || c == 58
    ensures SkipSpace([c] + rest) == [c] + rest && ([c] + rest)[1..] == rest
  {}

  /** An opening bracket: the list is empty, or its items follow. */
  lemma ListOpens(body: bytes)
    ensures var u := SkipSpace(body);
      ParseValue([91] + body) == if u != [] && u[0] == 93 then Ok(Arr([]), u[1..]) else ParseItems(u, [])
  {
    hide ParseItems, ParseScalar, ParseObject;
    assert SkipSpace([91] + body) == [91] + body;
    assert ([91] + body)[1..] == body;
  }

  lemma MapOpens(body: bytes)
    ensures var u := SkipSpace(body);
      ParseValue([123] + body) == if u != [] && u[0] == 125 then Ok(Obj([]), u[1..]) else ParseMembers(u, [])
  {
    hide ParseMembers, ParseScalar, ParseArray;
    assert SkipSpace([123] + body) == [123] + body;
    assert ([123] + body)[1..] == body;
  }

  lemma ItemStarts(it: Item, more: bytes)
    requires Proper(it.value)
    ensures var u := SkipSpace(WriteItem(it) + more); u != [] && u[0] != 93
  {
    WriteStarts(it.value);
    hide Write, Proper;
    var s := Write(it.value) + (it.after + more);
    assert WriteItem(it) + more == it.before + s;
    BlanksAreSkipped(it.before, s);
    assert SkipSpace(s) == s;
  }

  /** An item: what is left behind it starts at the next separator. */
  lemma {:induction false} ItemParses(it: Item, c: byte, more: bytes)
    requires Proper(it.value) && (c == 44 || c == 93 || c == 125)
    ensures var r := ParseValue(WriteItem(it) + ([c] + more));
      r.Ok? && r.value == Meaning(it.value) && SkipSpace(r.rest) == [c] + more
    decreases it, 1
  {
    hide ParseValue, Meaning, Proper, Write;
    var tail := it.after + ([c] + more);
    assert WriteItem(it) + ([c] + more) == it.before + (Write(it.value) + tail);
    assert tail[0] == if it.after == [] then c else it.after[0];
    SpellingParses(it.value, tail);
    BlanksInFront(it.before, Write(it.value) + tail);
    BlanksAreSkipped(it.after, [c] + more);
    CloserStays(c, more);
  }

  lemma {:induction false} ItemsParse(items: seq<Item>, done: seq<Value>, rest: bytes)
    requires items != [] && forall i :: 0 <= i < |items| ==> Proper(items[i].value)
    ensures ParseItems(WriteItem(items[0]) + WriteItems(items[1..]) + [93] + rest, done) == Ok(Arr(done + Meanings(items)), rest)
    decreases items, 2
  {
    hide ParseValue, Meaning, Proper, WriteItem, SkipSpace;
    var later := items[1..];
    var s := WriteItem(items[0]) + WriteItems(later) + [93] + rest;
    if later == [] {
      ItemParses(items[0], 93, rest);
      assert s == WriteItem(items[0]) + ([93] + rest);
      assert ([93] + rest)[1..] == rest;
      assert Meanings(items) == [Meaning(items[0].value)] + Meanings(later) && Meanings(later) == [];
      assert done + [Meaning(items[0].value)] == done + Meanings(items);
    } else {
      var more := WriteItem(later[0]) + WriteItems(later[1..]) + [93] + rest;
      ItemParses(items[0], 44, more);
      assert s == WriteItem(items[0]) + ([44] + more);
      assert ([44] + more)[1..] == more;
      ItemsParse(later, done + [Meaning(items[0].value)], rest);
      assert done + [Meaning(items[0].value)] + Meanings(later) == done + Meanings(items);
    }
  }

  lemma {:induction false} MapParses(entries: seq<Entry>, inside: blank, rest: bytes)
    requires forall i :: 0 <= i < |entries| ==> ProperPieces(entries[i].key) && Proper(entries[i].item.value)
    ensures ParseValue(Write(Map(entries, inside)) + rest) == Ok(Obj(Gathered(entries, [])), rest)
    decreases entries, 5
  {
    hide ParseMembers, Proper, ProperPieces, WriteEntry, WriteEntries, Gathered;
    var body := (if entries == [] then inside else WriteEntry(entries[0]) + WriteEntries(entries[1..])) + [125] + rest;
    assert Write(Map(entries, inside)) + rest == [123] + body;
    MapOpens(body);
    if entries == [] {
      NoItems();
      assert body == inside + ([125] + rest);
      BlanksAreSkipped(inside, [125] + rest);
      CloserStays(125, rest);
    } else {
      EntriesParse(entries, [], rest);
      EntryStarts(entries[0], WriteEntries(entries[1..]) + [125] + rest);
      assert body == WriteEntry(entries[0]) + (WriteEntries(entries[1..]) + [125] + rest);
      SkippedInFront(body, [], []);
    }
  }

  lemma EntryStarts(e: Entry, more: bytes)
    ensures var u := SkipSpace(WriteEntry(e) + more); u != [] && u[0] == 34
  {
    hide WritePieces, WriteItem;
    var s := WriteText(e.key) + (e.middle + ([58] + WriteItem(e.item)) + more);
    assert WriteEntry(e) + more == e.before + s;
    BlanksAreSkipped(e.before, s);
    assert SkipSpace(s) == s;
  }

  lemma {:induction false} EntryParses(e: Entry, c: byte, more: bytes)
    requires ProperPieces(e.key) && Proper(e.item.value) && (c == 44 || c == 125)
    ensures var r := ParseMember(WriteEntry(e) + ([c] + more));
      r.Ok? && r.value == Member(PiecesMeaning(e.key), Meaning(e.item.value)) && SkipSpace(r.rest) == [c] + more
    decreases e, 3
  {
    hide ParseValue, ParseString, Meaning, PiecesMeaning, Proper, ProperPieces, WriteItem, WriteText;
    var item := WriteItem(e.item) + ([c] + more);
    var tail := e.middle + ([58] + item);
    assert WriteEntry(e) + ([c] + more) == e.before + (WriteText(e.key) + tail);
    ItemParses(e.item, c, more);
    TextReads(e.key, tail);
    BlanksInFront(e.before, WriteText(e.key) + tail);
    BlanksAreSkipped(e.middle, [58] + item);
    CloserStays(58, item);
    hide SkipSpace;
  }

  lemma {:induction false} EntriesParse(entries: seq<Entry>, done: seq<Member>, rest: bytes)
    requires entries != []
    requires forall i :: 0 <= i < |entries| ==> ProperPieces(entries[i].key) && Proper(entries[i].item.value)
    ensures ParseMembers(WriteEntry(entries[0]) + WriteEntries(entries[1..]) + [125] + rest, done)
         == Ok(Obj(Gathered(entries, done)), rest)
    decreases entries, 4
  {
    hide ParseMember, Meaning, PiecesMeaning, Proper, ProperPieces, WriteEntry, SkipSpace, Insert;
    var later := entries[1..];
    var s := WriteEntry(entries[0]) + WriteEntries(later) + [125] + rest;
    var more := Insert(done, PiecesMeaning(entries[0].key), Meaning(entries[0].item.value));
    if later == [] {
      EntryParses(entries[0], 125, rest);
      assert s == WriteEntry(entries[0]) + ([125] + rest);
      assert ([125] + rest)[1..] == rest;
      assert Gathered(later, more) == more;
    } else {
      var text := WriteEntry(later[0]) + WriteEntries(later[1..]) + [125] + rest;
      EntryParses(entries[0], 44, text);
      assert s == WriteEntry(entries[0]) + ([44] + text);
      assert ([44] + text)[1..] == text;
      EntriesParse(later, more, rest);
    }
  }

  // ---- and nothing else does ----

  lemma TextFound(s: bytes) returns (pieces: seq<Piece>)
    requires ParseString(s).Ok?
    ensures ProperPieces(pieces) && s == WriteText(pieces) + ParseString(s).rest
    ensures ParseString(s).value == PiecesMeaning(pieces)
  {
    hide StringBody, PiecesMeaning, WritePieces, ProperPieces;
    pieces := PiecesFound(s[1..]);
    assert s == [34] + s[1..];
    TextTogether(WritePieces(pieces), ParseString(s).rest);
  }

  lemma TextTogether(key: bytes, rest: bytes)
    ensures [34] + (key + ([34] + rest)) == ([34] + (key + [34])) + rest
  {}

  lemma WordFound(s: bytes) returns (sp: Spelling)
    requires TRUE_TEXT <= s || FALSE_TEXT <= s || NULL_TEXT <= s
    ensures Proper(sp) && s == Write(sp) + ParseScalar(s).rest && ParseScalar(s) == Ok(Meaning(sp), ParseScalar(s).rest)
  {
    sp := if TRUE_TEXT <= s then Truth(true) else if FALSE_TEXT <= s then Truth(false) else Nothing;
    var n := |Write(sp)|;
    assert s == s[..n] + s[n..] && s[..n] == Write(sp);
    hide ParseString, ParseNumber;
  }

  lemma ScalarFound(s: bytes) returns (sp: Spelling)
    requires ParseScalar(s).Ok?
    ensures Proper(sp) && s == Write(sp) + ParseScalar(s).rest && ParseScalar(s).value == Meaning(sp)
  {
    hide ParseString, ParseNumber, NumberMeaning, PiecesMeaning, WriteText, ProperPieces;
    if s != [] && s[0] == 34 {
      var pieces := TextFound(s);
      sp := Text(pieces);
    } else if StartsWith(s, TRUE_TEXT) || StartsWith(s, FALSE_TEXT) || StartsWith(s, NULL_TEXT) {
      hide Write, Meaning;
      sp := WordFound(s);
    } else {
      hide Write, Meaning;
      sp := NumberFound(s);
    }
  }

  /** Whatever the parser takes for a value is blanks and a proper spelling of it. */
  lemma {:induction false} SpellingFound(s: bytes) returns (before: blank, sp: Spelling)
    requires ParseValue(s).Ok?
    ensures Proper(sp) && s == before + (Write(sp) + ParseValue(s).rest) && ParseValue(s).value == Meaning(sp)
    decreases |s|, 0
  {
    hide ParseArray, ParseObject, ParseScalar, Proper, Write, Meaning, SkipSpace;
    before := SkippedIsBlank(s);
    var t := SkipSpace(s);
    if t[0] == 91 {
      sp := ListFound(t[1..]);
      assert t == [91] + t[1..];
    } else if t[0] == 123 {
      sp := MapFound(t[1..]);
      assert t == [123] + t[1..];
    } else {
      sp := ScalarFound(t);
    }
  }

  lemma {:induction false} ListFound(s: bytes) returns (sp: Spelling)
    requires ParseArray(s).Ok?
    ensures Proper(sp) && [91] + s == Write(sp) + ParseArray(s).rest && ParseArray(s).value == Meaning(sp)
    decreases |s|, 3
  {
    hide ParseItems, WriteItem, WriteItems, Meanings, SkipSpace;
    var inside := SkippedIsBlank(s);
    var u := SkipSpace(s);
    NoItems();
    if u != [] && u[0] == 93 {
      sp := List([], inside);
      EmptyTogether(91, inside, u);
    } else {
      SkippedInFront(s, [], []);
      hide ParseArray;
      var items := ItemsFound(s, []);
      sp := List(items, []);
      assert [] + Meanings(items) == Meanings(items);
      ListTogether(WriteItem(items[0]), WriteItems(items[1..]), ParseItems(s, []).rest);
    }
  }

  lemma EmptyTogether(open: byte, inside: bytes, u: bytes)
    requires u != []
    ensures [open] + (inside + u) == [open] + (inside + [u[0]]) + u[1..]
  {
    assert u == [u[0]] + u[1..];
  }

  lemma ListTogether(a: bytes, b: bytes, rest: bytes)
    ensures [91] + (a + (b + ([93] + rest))) == [91] + ((a + b) + [93]) + rest
  {}

  lemma {:induction false} ItemsFound(s: bytes, done: seq<Value>) returns (items: seq<Item>)
    requires ParseItems(s, done).Ok?
    ensures items != [] && forall i :: 0 <= i < |items| ==> Proper(items[i].value)
    ensures s == WriteItem(items[0]) + (WriteItems(items[1..]) + ([93] + ParseItems(s, done).rest))
    ensures ParseItems(s, done).value == Arr(done + Meanings(items))
    decreases |s|, 1
  {
    hide Proper, Meaning, ParseValue, SkipSpace;
    var r := ParseValue(s);
    var before, sp := SpellingFound(s);
    hide Write;
    var after := SkippedIsBlank(r.rest);
    var u := SkipSpace(r.rest);
    var it := Item(before, sp, after);
    assert u == [u[0]] + u[1..];
    var more := [];
    if u[0] == 44 {
      more := ItemsFound(u[1..], done + [r.value]);
      assert done + [r.value] + Meanings(more) == done + ([r.value] + Meanings(more));
    }
    items := [it] + more;
    ItemTogether(before, Write(sp), after, u[0], u[1..]);
    ItemsTogether(it, more, ParseItems(s, done).rest);
    hide WriteItems, WriteItem, Meanings;
  }

  lemma CommaTogether(a: bytes, b: bytes, tail: bytes)
    ensures [44] + (a + b) + tail == [44] + (a + (b + tail))
  {}

  lemma ItemsTogether(it: Item, more: seq<Item>, rest: bytes)
    requires Proper(it.value) && forall i :: 0 <= i < |more| ==> Proper(more[i].value)
    ensures var items, tail := [it] + more, [93] + rest;
      && items[1..] == more && Meanings(items) == [Meaning(it.value)] + Meanings(more)
      && WriteItems(more) + tail
         == if more == [] then tail else [44] + (WriteItem(more[0]) + (WriteItems(more[1..]) + tail))
  {
    hide Proper, Meaning, WriteItem;
    var items, tail := [it] + more, [93] + rest;
    assert items[1..] == more;
    if more == [] {
      assert [] + tail == tail;
    } else {
      CommaTogether(WriteItem(more[0]), WriteItems(more[1..]), tail);
    }
  }

  lemma ItemTogether(before: bytes, w: bytes, after: bytes, c: byte, more: bytes)
    ensures before + (w + (after + ([c] + more))) == (before + (w + after)) + ([c] + more)
  {}

  lemma {:induction false} MapFound(s: bytes) returns (sp: Spelling)
    requires ParseObject(s).Ok?
    ensures Proper(sp) && [123] + s == Write(sp) + ParseObject(s).rest && ParseObject(s).value == Meaning(sp)
    decreases |s|, 4
  {
    hide ParseMembers, WriteEntry, WriteEntries, Gathered, SkipSpace;
    var inside := SkippedIsBlank(s);
    var u := SkipSpace(s);
    NoItems();
    if u != [] && u[0] == 125 {
      sp := Map([], inside);
      EmptyTogether(123, inside, u);
    } else {
      SkippedInFront(s, [], []);
      hide ParseObject;
      var entries := EntriesFound(s, []);
      sp := Map(entries, []);
      MapTogether(WriteEntry(entries[0]), WriteEntries(entries[1..]), ParseMembers(s, []).rest);
    }
  }

  lemma MapTogether(a: bytes, b: bytes, rest: bytes)
    ensures [123] + (a + (b + ([125] + rest))) == [123] + ((a + b) + [125]) + rest
  {}

  /** A member the parser takes, but for the blanks behind it. */
  lemma {:induction false} EntryFound(s: bytes) returns (e: Entry)
    requires ParseMember(s).Ok?
    ensures ProperPieces(e.key) && Proper(e.item.value) && e.item.after == []
    ensures s == WriteEntry(e) + ParseMember(s).rest
    ensures ParseMember(s).value == Member(PiecesMeaning(e.key), Meaning(e.item.value))
    decreases |s|, 1
  {
    hide Proper, ProperPieces, Meaning, PiecesMeaning, Write, WriteText, ParseString, ParseValue, SkipSpace;
    var before := SkippedIsBlank(s);
    var t := SkipSpace(s);
    var pieces := TextFound(t);
    var r := ParseString(t);
    var middle := SkippedIsBlank(r.rest);
    var u := SkipSpace(r.rest);
    var front, sp := SpellingFound(u[1..]);
    e := Entry(before, pieces, middle, Item(front, sp, []));
    EntryTogether(before, WriteText(pieces), middle, u, front, Write(sp), ParseValue(u[1..]).rest);
  }

  lemma EntryTogether(before: bytes, key: bytes, middle: bytes, u: bytes, front: bytes, w: bytes, rest: bytes)
    requires u != [] && u[0] == 58 && u[1..] == front + (w + rest)
    ensures before + (key + (middle + u)) == before + (key + (middle + ([58] + (front + (w + []))))) + rest
  {
    assert u == [58] + u[1..];
    assert w + [] == w;
  }

  lemma {:induction false} EntriesFound(s: bytes, done: seq<Member>) returns (entries: seq<Entry>)
    requires ParseMembers(s, done).Ok?
    ensures entries != []
    ensures forall i :: 0 <= i < |entries| ==> ProperPieces(entries[i].key) && Proper(entries[i].item.value)
    ensures s == WriteEntry(entries[0]) + (WriteEntries(entries[1..]) + ([125] + ParseMembers(s, done).rest))
    ensures ParseMembers(s, done).value == Obj(Gathered(entries, done))
    decreases |s|, 2
  {
    hide Proper, ProperPieces, Meaning, PiecesMeaning, Write, WriteText, ParseMember, SkipSpace, Insert;
    var r := ParseMember(s);
    var e := EntryFound(s);
    var after := SkippedIsBlank(r.rest);
    var u := SkipSpace(r.rest);
    var done' := Insert(done, r.value.key, r.value.value);
    var e' := WithAfter(e, after, u);
    assert u == [u[0]] + u[1..];
    var more := [];
    if u[0] == 44 {
      more := EntriesFound(u[1..], done');
    }
    entries := [e'] + more;
    EntriesTogether(e', more, done, ParseMembers(s, done).rest);
    hide WriteEntries, WriteEntry, Gathered;
  }

  lemma EntriesTogether(e: Entry, more: seq<Entry>, done: seq<Member>, rest: bytes)
    requires ProperPieces(e.key) && Proper(e.item.value)
    requires forall i :: 0 <= i < |more| ==> ProperPieces(more[i].key) && Proper(more[i].item.value)
    ensures var entries, tail := [e] + more, [125] + rest;
      && entries[1..] == more
      && Gathered(entries, done) == Gathered(more, Insert(done, PiecesMeaning(e.key), Meaning(e.item.value)))
      && WriteEntries(more) + tail
         == if more == [] then tail else [44] + (WriteEntry(more[0]) + (WriteEntries(more[1..]) + tail))
  {
    hide Proper, ProperPieces, Meaning, PiecesMeaning, WriteEntry, Insert;
    var entries, tail := [e] + more, [125] + rest;
    assert entries[1..] == more;
    if more == [] {
      assert [] + tail == tail;
    } else {
      CommaTogether(WriteEntry(more[0]), WriteEntries(more[1..]), tail);
    }
  }

  /** Blanks behind a member belong to it. */
  lemma WithAfter(e: Entry, after: blank, more: bytes) returns (e': Entry)
    requires e.item.after == []
    ensures e' == e.(item := e.item.(after := after)) && WriteEntry(e') + more == WriteEntry(e) + (after + more)
  {
    hide Write, WritePieces;
    e' := e.(item := e.item.(after := after));
    assert Write(e.item.value) + [] == Write(e.item.value);
  }

  // ---- documents ----

  ghost predicate Spells(text: bytes, v: Value, before: blank, sp: Spelling, after: blank) {
    Proper(sp) && Meaning(sp) == v && text == before + (Write(sp) + after)
  }

  /** A text is a document exactly when it is a proper spelling with blanks around it, and its value is what that means. */
  lemma AcceptsExactlyTheGrammar(text: bytes, v: Value)
    ensures Parse(text) == Document(v) <==> exists before: blank, sp, after: blank :: Spells(text, v, before, sp, after)
  {
    hide ParseValue, SkipSpace, Proper, Meaning, Write;
    if Parse(text) == Document(v) {
      var before, sp := SpellingFound(text);
      var after := SkippedIsBlank(ParseValue(text).rest);
      assert after + [] == after;
      assert Spells(text, v, before, sp, after);
    }
    forall before: blank, sp, after: blank | Spells(text, v, before, sp, after) ensures Parse(text) == Document(v) {
      BlanksEndNumbers(after);
      SpellingParses(sp, after);
      BlanksInFront(before, Write(sp) + after);
      NothingBehind(after);
    }
  }

  lemma BlanksEndNumbers(after: blank)
    ensures EndsToken(after)
  {}

  lemma NothingBehind(after: blank)
    ensures SkipSpace(after) == []
  {
    BlanksAreSkipped(after, []);
    assert after + [] == after;
  }
}
