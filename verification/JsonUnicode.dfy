/** `\u` escapes (section 7 of RFC 8259) decode to UTF-8 (RFC 3629). */
module JsonUnicode {
  import opened Bytes
  import opened Json
  import opened JsonSpelling

  predicate IsScalar(cp: nat) {
    cp < 0x11_0000 && !(0xD800 <= cp <= 0xDFFF)
  }

  /** Four hex digits, in either case each, that spell the code unit u. */
  ghost predicate SpellsUnit(t: bytes, u: nat) {
    FourHex(t) && u == Number16(t)
  }

  ghost predicate SpellsEscape(t: bytes, u: nat) {
    |t| == 6 && t[0] == BACKSLASH && t[1] == LOWER_U && SpellsUnit(t[2..], u)
  }

  function HighSurrogate(cp: nat): nat {
    0xD800 + (cp - 0x1_0000) / 1024
  }

  function LowSurrogate(cp: nat): nat {
    0xDC00 + (cp - 0x1_0000) % 1024
  }

  /** One escape for a scalar value below 0x10000, a surrogate pair for one above. */
  ghost predicate SpellsScalar(t: bytes, cp: nat) {
    if cp < 0x1_0000 then SpellsEscape(t, cp)
    else |t| == 12 && SpellsEscape(t[..6], HighSurrogate(cp)) && SpellsEscape(t[6..], LowSurrogate(cp))
  }

  /** A piece of a string literal: a scalar value and one of its spellings. */
  datatype Glyph = Glyph(cp: nat, spelling: bytes)

  ghost predicate Spelled(gs: seq<Glyph>) {
    forall g <- gs :: IsScalar(g.cp) && SpellsScalar(g.spelling, g.cp)
  }

  function Text(gs: seq<Glyph>): bytes {
    if gs == [] then [] else gs[0].spelling + Text(gs[1..])
  }

  function Scalars(gs: seq<Glyph>): seq<nat> {
    if gs == [] then [] else [gs[0].cp] + Scalars(gs[1..])
  }

  // ---- a UTF-8 decoder, from the syntax of section 4 of RFC 3629 ----

  predicate IsTail(b: byte) {
    0x80 <= b <= 0xBF
  }

  /** What a byte carries above its marker bits. */
  function Bits(b: byte, marker: byte): nat
    requires marker <= b
  {
    b - marker
  }

  /** The first scalar value and the number of bytes it takes. */
  function DecodeOne(s: bytes): Option<(nat, nat)> {
    if s == [] then None
    else if s[0] <= 0x7F then Some((s[0], 1))
    else if 0xC2 <= s[0] <= 0xDF && |s| >= 2 && IsTail(s[1]) then
      Some((64 * Bits(s[0], 0xC0) + Bits(s[1], 0x80), 2))
    else if 0xE0 <= s[0] <= 0xEF && |s| >= 3 && IsTail(s[1]) && IsTail(s[2])
            && (s[0] == 0xE0 ==> s[1] >= 0xA0) && (s[0] == 0xED ==> s[1] <= 0x9F) then
      Some((4096 * Bits(s[0], 0xE0) + 64 * Bits(s[1], 0x80) + Bits(s[2], 0x80), 3))
    else if 0xF0 <= s[0] <= 0xF4 && |s| >= 4 && IsTail(s[1]) && IsTail(s[2]) && IsTail(s[3])
            && (s[0] == 0xF0 ==> s[1] >= 0x90) && (s[0] == 0xF4 ==> s[1] <= 0x8F) then
      Some((0x4_0000 * Bits(s[0], 0xF0) + 4096 * Bits(s[1], 0x80) + 64 * Bits(s[2], 0x80) + Bits(s[3], 0x80), 4))
    else None
  }

  function DecodeUtf8(s: bytes): Option<seq<nat>>
    decreases |s|
  {
    if s == [] then Some([])
    else match DecodeOne(s)
    case None => None
    case Some((cp, n)) =>
      if n == 0 || n > |s| then None
      else match DecodeUtf8(s[n..])
      case None => None
      case Some(cps) => Some([cp] + cps)
  }

  /** The six-bit groups of a code point, as `utf8` cuts them. */
  lemma SixBitGroups(cp: nat)
    ensures cp == 64 * (cp / 64) + cp % 64
    ensures cp / 64 == 64 * (cp / 4096) + cp / 64 % 64
    ensures cp / 4096 == 64 * (cp / 0x4_0000) + cp / 4096 % 64
  {}

  lemma EncodedScalarDecodes(cp: nat, rest: bytes)
    requires IsScalar(cp)
    ensures DecodeOne(Utf8(cp) + rest) == Some((cp, |Utf8(cp)|))
  {
    hide Utf8, DecodeOne;
    SixBitGroups(cp);
    if cp < 0x80 {
      OneByte(cp, rest);
    } else if cp < 0x800 {
      TwoBytes(cp, rest);
    } else if cp < 0x1_0000 {
      ThreeBytes(cp, rest);
    } else {
      FourBytes(cp, rest);
    }
  }

  lemma OneByte(cp: nat, rest: bytes)
    requires cp < 0x80
    ensures DecodeOne(Utf8(cp) + rest) == Some((cp, |Utf8(cp)|))
  {
    assert (Utf8(cp) + rest)[0] == cp;
  }

  lemma TwoBytes(cp: nat, rest: bytes)
    requires 0x80 <= cp < 0x800
    ensures DecodeOne(Utf8(cp) + rest) == Some((cp, |Utf8(cp)|))
  {
    var s := Utf8(cp) + rest;
    assert s[0] == 0xC0 + cp / 64 && s[1] == 0x80 + cp % 64;
  }

  lemma ThreeBytes(cp: nat, rest: bytes)
    requires 0x800 <= cp < 0x1_0000 && IsScalar(cp)
    ensures DecodeOne(Utf8(cp) + rest) == Some((cp, |Utf8(cp)|))
  {
    SixBitGroups(cp);
    var s := Utf8(cp) + rest;
    assert s[0] == 0xE0 + cp / 4096 && s[1] == 0x80 + cp / 64 % 64 && s[2] == 0x80 + cp % 64;
  }

  lemma FourBytes(cp: nat, rest: bytes)
    requires 0x1_0000 <= cp && IsScalar(cp)
    ensures DecodeOne(Utf8(cp) + rest) == Some((cp, |Utf8(cp)|))
  {
    SixBitGroups(cp);
    var s := Utf8(cp) + rest;
    assert s[0] == 0xF0 + cp / 0x4_0000 && s[1] == 0x80 + cp / 4096 % 64 && s[2] == 0x80 + cp / 64 % 64 && s[3] == 0x80 + cp % 64;
  }

  // ---- the parser on escapes ----

  /** A surrogate pair combines to the scalar value it stands for. */
  lemma PairCombines(cp: nat)
    requires 0x1_0000 <= cp < 0x11_0000
    ensures IsHighSurrogate(HighSurrogate(cp)) && IsLowSurrogate(LowSurrogate(cp))
    ensures 0x1_0000 + (HighSurrogate(cp) - 0xD800) * 1024 + (LowSurrogate(cp) - 0xDC00) == cp
  {}

  lemma ScalarReads(t: bytes, cp: nat, rest: bytes)
    requires IsScalar(cp) && SpellsScalar(t, cp)
    ensures |t| >= 6 && t[0] == BACKSLASH && t[1] == LOWER_U
    ensures UnicodeEscape(t[2..] + rest) == Ok(Utf8(cp), rest)
  {
    hide Hex4, Utf8, FourHex, Number16;
    if cp < 0x1_0000 {
      UnitReads(t[2..], rest);
    } else {
      PairCombines(cp);
      hide HighSurrogate, LowSurrogate;
      var hi, lo := t[..6][2..], t[6..][2..];
      var more := [BACKSLASH, LOWER_U] + (lo + rest);
      assert t[2..] + rest == hi + more;
      UnitReads(hi, more);
      assert more[2..] == lo + rest;
      UnitReads(lo, rest);
    }
  }

  /** Any sequence of scalar values, spelled as escapes with surrogate pairs above FFFF, parses to bytes that
      decode, by RFC 3629, to exactly those scalar values. */
  lemma {:induction false} EscapesAreUtf8(gs: seq<Glyph>, rest: bytes)
    requires Spelled(gs)
    ensures var r := StringBody(Text(gs) + [QUOTE] + rest);
            r.Ok? && r.rest == rest && DecodeUtf8(r.value) == Some(Scalars(gs))
  {
    hide StringBody, Utf8, DecodeUtf8, SpellsScalar, UnicodeEscape;
    if gs == [] {
      NoGlyphs(rest);
    } else {
      var g := gs[0];
      assert g in gs;
      var more := Text(gs[1..]) + [QUOTE] + rest;
      var s := Text(gs) + [QUOTE] + rest;
      assert s == g.spelling + more;
      ScalarReads(g.spelling, g.cp, more);
      assert s[2..] == g.spelling[2..] + more;
      EscapeIsRead(s, Utf8(g.cp), more);
      EscapesAreUtf8(gs[1..], rest);
      DecodesFirst(g.cp, StringBody(more).value);
    }
  }

  lemma NoGlyphs(rest: bytes)
    ensures StringBody([] + [QUOTE] + rest) == Ok([], rest) && DecodeUtf8([]) == Some([])
  {
    assert [] + [QUOTE] + rest == [QUOTE] + rest;
  }

  lemma EscapeIsRead(s: bytes, text: bytes, rest: bytes)
    requires |s| >= 2 && s[0] == BACKSLASH && s[1] == LOWER_U && UnicodeEscape(s[2..]) == Ok(text, rest)
    ensures StringBody(s) == Prefix(text, StringBody(rest))
  {
    hide UnicodeEscape;
  }

  lemma DecodesFirst(cp: nat, rest: bytes)
    requires IsScalar(cp) && DecodeUtf8(rest).Some?
    ensures DecodeUtf8(Utf8(cp) + rest) == Some([cp] + DecodeUtf8(rest).value)
  {
    EncodedScalarDecodes(cp, rest);
    assert (Utf8(cp) + rest)[|Utf8(cp)|..] == rest;
    assert |Utf8(cp)| > 0;
    hide Utf8, DecodeOne;
  }
}
