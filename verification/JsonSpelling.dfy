/** The texts the JSON parser accepts, as syntax trees over bytes, for strings and numbers: what each piece is written
    as, and what it means. */
module JsonSpelling {
  import opened Bytes
  import opened Json
  import opened JsonProofs

  // ---- strings ----

  /** A byte that stands for itself, a one-letter escape, a code unit, or two code units the first of which is a high
      surrogate. */
  datatype Piece = Plain(c: byte) | Short(letter: byte) | Unit(hex: bytes) | Pair(high: bytes, low: bytes)

  ghost predicate FourHex(t: bytes) {
    |t| == 4 && forall i :: 0 <= i < 4 ==> HexValue(t[i]).Some?
  }

  function Number16(t: bytes): (u: nat)
    requires FourHex(t)
    ensures u < 0x1_0000
  {
    HexValue(t[0]).value * 4096 + HexValue(t[1]).value * 256 + HexValue(t[2]).value * 16 + HexValue(t[3]).value
  }

  /** The letters that may follow a backslash, and what they stand for. */
  function ShortMeaning(letter: byte): Option<byte> {
    match letter
    case 34 => Some(34)
    case 47 => Some(47)
    case 92 => Some(92)
    case 98 => Some(8)
    case 102 => Some(12)
    case 110 => Some(10)
    case 114 => Some(13)
    case 116 => Some(9)
    case _ => None
  }

  ghost predicate ProperPiece(p: Piece) {
    match p
    case Plain(c) => c != 34 && c != 92
    case Short(letter) => ShortMeaning(letter).Some?
    case Unit(hex) => FourHex(hex)
    case Pair(high, low) => FourHex(high) && FourHex(low) && 0xD800 <= Number16(high) <= 0xDBFF
  }

  ghost predicate IsEscapedUnit(p: Piece) {
    p.Unit? || p.Pair?
  }

  /** A high surrogate is never alone in front of another escaped unit: the two make a pair. */
  ghost predicate ProperPieces(ps: seq<Piece>) {
    ps != [] ==>
      && ProperPiece(ps[0]) && ProperPieces(ps[1..])
      && (ps[0].Unit? && 0xD800 <= Number16(ps[0].hex) <= 0xDBFF && |ps| > 1 ==> !IsEscapedUnit(ps[1]))
  }

  function WritePiece(p: Piece): bytes {
    match p
    case Plain(c) => [c]
    case Short(letter) => [92, letter]
    case Unit(hex) => [92, 117] + hex
    case Pair(high, low) => [92, 117] + (high + ([92, 117] + low))
  }

  function WritePieces(ps: seq<Piece>): bytes {
    if ps == [] then [] else WritePiece(ps[0]) + WritePieces(ps[1..])
  }

  /** A surrogate pair is one code point; of any other two units the second comes first. */
  ghost function PieceMeaning(p: Piece): bytes
    requires ProperPiece(p)
  {
    match p
    case Plain(c) => [c]
    case Short(letter) => [ShortMeaning(letter).value]
    case Unit(hex) => Utf8(Number16(hex))
    case Pair(high, low) =>
      if 0xDC00 <= Number16(low) <= 0xDFFF then
        Utf8(0x1_0000 + (Number16(high) - 0xD800) * 1024 + (Number16(low) - 0xDC00))
      else Utf8(Number16(low)) + Utf8(Number16(high))
  }

  ghost function PiecesMeaning(ps: seq<Piece>): bytes
    requires ProperPieces(ps)
  {
    if ps == [] then [] else PieceMeaning(ps[0]) + PiecesMeaning(ps[1..])
  }

  // ---- strings are read as written ----

  lemma UnitReads(t: bytes, rest: bytes)
    requires FourHex(t)
    ensures Hex4(t + rest) == Ok(Number16(t), rest)
  {
    var s := t + rest;
    assert s == [t[0]] + ([t[1]] + ([t[2]] + ([t[3]] + rest)));
    FourSteps(t[0], t[1], t[2], t[3], rest);
    hide HexDigits, HexValue;
  }

  lemma NoDigitsLeft(rest: bytes, acc: nat)
    ensures HexDigits(rest, 0, acc) == Ok(acc, rest)
  {}

  lemma FourSteps(a: byte, b: byte, c: byte, d: byte, rest: bytes)
    requires HexValue(a).Some? && HexValue(b).Some? && HexValue(c).Some? && HexValue(d).Some?
    ensures HexDigits([a] + ([b] + ([c] + ([d] + rest))), 4, 0)
         == Ok(HexValue(a).value * 4096 + HexValue(b).value * 256 + HexValue(c).value * 16 + HexValue(d).value, rest)
  {
    hide HexValue, HexDigits;
    NoDigitsLeft(rest, ((HexValue(a).value * 16 + HexValue(b).value) * 16 + HexValue(c).value) * 16 + HexValue(d).value);
    HexStep(a, [b] + ([c] + ([d] + rest)), 4, 0);
    var x := HexValue(a).value;
    HexStep(b, [c] + ([d] + rest), 3, x);
    HexStep(c, [d] + rest, 2, x * 16 + HexValue(b).value);
    HexStep(d, rest, 1, (x * 16 + HexValue(b).value) * 16 + HexValue(c).value);
  }

  predicate StartsEscapedUnit(s: bytes) {
    |s| >= 2 && s[0] == 92 && s[1] == 117
  }

  lemma SingleReads(hex: bytes, rest: bytes)
    requires FourHex(hex) && !(0xD800 <= Number16(hex) <= 0xDBFF && StartsEscapedUnit(rest))
    ensures UnicodeEscape(hex + rest) == Ok(Utf8(Number16(hex)), rest)
  {
    UnitReads(hex, rest);
    hide Hex4, FourHex, Utf8, Number16;
  }

  lemma PairReads(high: bytes, low: bytes, rest: bytes)
    requires ProperPiece(Pair(high, low))
    ensures UnicodeEscape(high + ([92, 117] + low) + rest) == Ok(PieceMeaning(Pair(high, low)), rest)
  {
    var more := [92, 117] + (low + rest);
    assert high + ([92, 117] + low) + rest == high + more;
    UnitReads(high, more);
    assert more[2..] == low + rest;
    UnitReads(low, rest);
    hide Hex4, FourHex, Utf8, Number16;
  }

  /** A piece at the front of a literal is read as what it means. */
  lemma PieceReads(p: Piece, rest: bytes)
    requires ProperPiece(p)
    requires p.Unit? && 0xD800 <= Number16(p.hex) <= 0xDBFF ==> !StartsEscapedUnit(rest)
    ensures StringBody(WritePiece(p) + rest) == Prefix(PieceMeaning(p), StringBody(rest))
  {
    match p {
      case Plain(c) =>
        hide UnicodeEscape, SimpleEscape;
        assert ([c] + rest)[1..] == rest;
      case Short(letter) =>
        ShortsAgree(letter);
        hide StringBody, SimpleEscape, ShortMeaning;
        TwoByteEscapeReads(letter, ShortMeaning(letter).value, rest);
      case Unit(hex) =>
        hide UnicodeEscape, FourHex, Utf8, Number16, StringBody;
        SingleReads(hex, rest);
        EscapeReads(hex, rest);
        assert WritePiece(p) + rest == [92, 117] + (hex + rest);
      case Pair(high, low) =>
        hide UnicodeEscape, PieceMeaning, ProperPiece, StringBody;
        var units := high + ([92, 117] + low);
        PairReads(high, low, rest);
        EscapeReads(units, rest);
        assert WritePiece(p) + rest == [92, 117] + (units + rest);
    }
  }

  lemma EscapeReads(units: bytes, rest: bytes)
    requires UnicodeEscape(units + rest).Ok?
    ensures var r := UnicodeEscape(units + rest);
      StringBody([92, 117] + (units + rest)) == Prefix(r.value, StringBody(r.rest))
  {
    hide UnicodeEscape;
    var s := [92, 117] + (units + rest);
    assert s[2..] == units + rest;
  }

  /** What follows a piece starts an escaped unit only if the next piece is one. */
  lemma NextStarts(ps: seq<Piece>, rest: bytes)
    requires ProperPieces(ps) && (ps == [] || !IsEscapedUnit(ps[0]))
    ensures !StartsEscapedUnit(WritePieces(ps) + ([34] + rest))
  {
    if ps != [] {
      var s := WritePieces(ps) + ([34] + rest);
      assert s[0] == WritePiece(ps[0])[0];
      assert ps[0].Short? ==> s[1] == ps[0].letter;
    }
  }

  lemma {:induction false} PiecesRead(ps: seq<Piece>, rest: bytes)
    requires ProperPieces(ps)
    ensures StringBody(WritePieces(ps) + ([34] + rest)) == Ok(PiecesMeaning(ps), rest)
  {
    if ps == [] {
      assert [] + ([34] + rest) == [34] + rest;
    } else {
      var more := WritePieces(ps[1..]) + ([34] + rest);
      assert WritePieces(ps) + ([34] + rest) == WritePiece(ps[0]) + more;
      PiecesRead(ps[1..], rest);
      if ps[0].Unit? && 0xD800 <= Number16(ps[0].hex) <= 0xDBFF {
        NextStarts(ps[1..], rest);
      }
      PieceReads(ps[0], more);
      hide StringBody, PieceMeaning, WritePiece, ProperPiece;
    }
  }

  // ---- and nothing else is read ----

  lemma UnitFound(s: bytes) returns (hex: bytes)
    requires Hex4(s).Ok?
    ensures FourHex(hex) && s == hex + Hex4(s).rest && Hex4(s).value == Number16(hex)
  {
    hex := s[..4];
    assert forall i :: 0 <= i < 4 ==> HexValue(s[i]).Some? by {
      HexDigitsFound(s);
    }
    UnitReads(hex, s[4..]);
    assert s == hex + s[4..];
  }

  lemma HexDigitsFound(s: bytes)
    requires Hex4(s).Ok?
    ensures |s| >= 4 && forall i :: 0 <= i < 4 ==> HexValue(s[i]).Some?
  {
    HexStep(s[0], s[1..], 4, 0);
    assert s == [s[0]] + s[1..];
    var a := HexValue(s[0]).value;
    assert HexDigits(s, 4, 0) == HexDigits(s[1..], 3, a);
    assert HexValue(s[1..][0]).Some?;
    var b := a * 16 + HexValue(s[1]).value;
    assert HexDigits(s[1..], 3, a) == HexDigits(s[1..][1..], 2, b);
    assert s[1..][1..] == s[2..] && HexValue(s[2..][0]).Some?;
    var c := b * 16 + HexValue(s[2]).value;
    assert HexDigits(s[2..], 2, b) == HexDigits(s[2..][1..], 1, c);
    assert s[2..][1..] == s[3..] && HexValue(s[3..][0]).Some?;
  }

  /** The piece at the front of whatever the parser takes for the rest of a literal. */
  lemma PieceFound(s: bytes) returns (p: Piece, rest: bytes)
    requires StringBody(s).Ok? && s != [] && s[0] != 34
    ensures ProperPiece(p) && s == WritePiece(p) + rest
    ensures StringBody(rest).Ok? && StringBody(s) == Prefix(PieceMeaning(p), StringBody(rest))
    ensures p.Unit? && 0xD800 <= Number16(p.hex) <= 0xDBFF ==> !StartsEscapedUnit(rest)
  {
    if s[0] != 92 {
      p, rest := Plain(s[0]), s[1..];
      hide UnicodeEscape, SimpleEscape;
    } else if s[1] != 117 {
      p, rest := Short(s[1]), s[2..];
      ShortsAgree(s[1]);
      hide UnicodeEscape, SimpleEscape, ShortMeaning;
    } else {
      EscapeGoesOn(s);
      hide UnicodeEscape, Number16, FourHex, PieceMeaning, ProperPiece, WritePiece, StringBody, StartsEscapedUnit;
      p, rest := EscapedUnitFound(s[2..]);
      Regroup(s, WritePiece(p), rest);
    }
  }

  lemma ShortsAgree(letter: byte)
    ensures SimpleEscape(letter) == ShortMeaning(letter)
  {}

  lemma EscapeGoesOn(s: bytes)
    requires StartsEscapedUnit(s) && StringBody(s).Ok?
    ensures var r := UnicodeEscape(s[2..]);
      r.Ok? && StringBody(s) == Prefix(r.value, StringBody(r.rest)) && StringBody(r.rest).Ok?
  {
    hide UnicodeEscape;
  }

  lemma Regroup(s: bytes, w: bytes, rest: bytes)
    requires |s| >= 2 && |w| >= 2 && s[..2] == w[..2] && s[2..] == w[2..] + rest
    ensures s == w + rest
  {
    assert s == s[..2] + s[2..] && w == w[..2] + w[2..];
  }

  lemma EscapedUnitFound(s: bytes) returns (p: Piece, rest: bytes)
    requires UnicodeEscape(s).Ok?
    ensures ProperPiece(p) && IsEscapedUnit(p)
    ensures |WritePiece(p)| >= 2 && WritePiece(p)[..2] == [92, 117] && s == WritePiece(p)[2..] + rest
    ensures UnicodeEscape(s) == Ok(PieceMeaning(p), rest)
    ensures p.Unit? && 0xD800 <= Number16(p.hex) <= 0xDBFF ==> !StartsEscapedUnit(rest)
  {
    var hex := UnitFound(s);
    var more := Hex4(s).rest;
    if 0xD800 <= Number16(hex) <= 0xDBFF && StartsEscapedUnit(more) {
      hide FourHex, Number16, Utf8;
      var low := UnitFound(more[2..]);
      hide Hex4;
      p, rest := Pair(hex, low), Hex4(more[2..]).rest;
      assert more == [92, 117] + more[2..];
      assert s == hex + ([92, 117] + low) + rest;
      PairReads(hex, low, rest);
    } else {
      hide FourHex, Number16, Utf8, Hex4;
      p, rest := Unit(hex), more;
      SingleReads(hex, more);
    }
  }

  lemma StartsLikeFirst(ps: seq<Piece>, more: bytes)
    ensures ps != [] && IsEscapedUnit(ps[0]) ==> StartsEscapedUnit(WritePieces(ps) + more)
  {
    if ps != [] && IsEscapedUnit(ps[0]) {
      var w := WritePiece(ps[0]);
      assert |w| >= 2 && w[0] == 92 && w[1] == 117;
      assert (WritePieces(ps) + more)[0] == w[0] && (WritePieces(ps) + more)[1] == w[1];
    }
  }

  lemma PiecesTogether(p: Piece, more: seq<Piece>, tail: bytes)
    ensures WritePiece(p) + (WritePieces(more) + tail) == WritePieces([p] + more) + tail
    ensures ProperPiece(p) && ProperPieces(more) && ProperPieces([p] + more) ==>
              PiecesMeaning([p] + more) == PieceMeaning(p) + PiecesMeaning(more)
  {
    hide WritePiece, ProperPiece, PieceMeaning;
    assert ([p] + more)[1..] == more;
  }

  /** Whatever the parser takes for the rest of a literal is pieces and a quote. */
  lemma {:induction false} PiecesFound(s: bytes) returns (ps: seq<Piece>)
    requires StringBody(s).Ok?
    ensures ProperPieces(ps) && s == WritePieces(ps) + ([34] + StringBody(s).rest)
    ensures StringBody(s).value == PiecesMeaning(ps)
    decreases |s|
  {
    if s[0] == 34 {
      ps := [];
      assert s == [34] + s[1..];
    } else {
      var p, rest := PieceFound(s);
      hide StringBody, PieceMeaning, PiecesMeaning, WritePieces, ProperPiece, StartsEscapedUnit;
      assert |WritePiece(p)| > 0;
      hide WritePiece;
      var more := PiecesFound(rest);
      StartsLikeFirst(more, [34] + StringBody(s).rest);
      ps := [p] + more;
      assert ps[1..] == more;
      PiecesTogether(p, more, [34] + StringBody(s).rest);
    }
  }

  // ---- the printer's spelling ----

  /** Of all the spellings of a byte that RFC 8259 allows, the printer's is a shortest one. */
  lemma EscapeIsShortest(c: byte, p: Piece)
    requires ProperPiece(p) && PieceMeaning(p) == [c] && (p.Plain? ==> p.c >= 32)
    ensures |EscapeByte(c)| <= |WritePiece(p)|
  {
    hide Number16;
  }

  /** And it is one of them, for that byte. */
  lemma EscapeIsLegal(c: byte) returns (p: Piece)
    ensures ProperPiece(p) && (p.Plain? ==> p.c >= 32) && WritePiece(p) == EscapeByte(c) && PieceMeaning(p) == [c]
  {
    if c == 34 || c == 92 {
      p := Short(c);
    } else if 8 <= c <= 13 && c != 11 {
      p := Short(if c == 8 then 98 else if c == 9 then 116 else if c == 10 then 110 else if c == 12 then 102 else 114);
    } else if c < 32 {
      var hex := [48, 48, HexDigit(c / 16), HexDigit(c % 16)];
      p := Unit(hex);
      assert forall i :: 0 <= i < 4 ==> HexValue(hex[i]).Some?;
      assert Number16(hex) == c;
    } else {
      p := Plain(c);
    }
  }

  /** A number is printed without leading zeros. */
  lemma {:induction false} NoLeadingZero(n: nat)
    ensures Digits(n)[0] == 48 ==> n == 0 && |Digits(n)| == 1
  {
    if n >= 10 {
      NoLeadingZero(n / 10);
    }
  }
}
