/** Base64 and percent-encoding, and decoders that undo them. */
module TextEncoding {
  import opened Bytes

  // ---- base64 (RFC 4648, section 4) ----

  const PAD: byte := 61

  function Letter(v: nat): (c: byte)
    requires v < 64
  {
    if v < 26 then 65 + v
    else if v < 52 then 71 + v
    else if v < 62 then v - 4
    else if v == 62 then 43
    else 47
  }

  function Value(c: byte): Option<nat> {
    if 65 <= c <= 90 then Some(c as int - 65)
    else if 97 <= c <= 122 then Some(c as int - 71)
    else if 48 <= c <= 57 then Some(c as int + 4)
    else if c == 43 then Some(62)
    else if c == 47 then Some(63)
    else None
  }

  lemma LetterReads(v: nat)
    requires v < 64
    ensures Value(Letter(v)) == Some(v) && Letter(v) != PAD
  {}

  /** Three bytes as four letters. */
  function Quad(a: byte, b: byte, c: byte): (q: bytes)
    ensures |q| == 4
  {
    var v := a as int * 65536 + b as int * 256 + c as int;
    [Letter(v / 262144 % 64), Letter(v / 4096 % 64), Letter(v / 64 % 64), Letter(v % 64)]
  }

  /** The last group when one byte, or two, are left over. */
  function LastOne(a: byte): (q: bytes)
    ensures |q| == 4
  {
    Quad(a, 0, 0)[..2] + [PAD, PAD]
  }

  function LastTwo(a: byte, b: byte): (q: bytes)
    ensures |q| == 4
  {
    Quad(a, b, 0)[..3] + [PAD]
  }

  function Base64(s: bytes): bytes {
    if s == [] then []
    else if |s| == 1 then LastOne(s[0])
    else if |s| == 2 then LastTwo(s[0], s[1])
    else Quad(s[0], s[1], s[2]) + Base64(s[3..])
  }

  /** The three bytes four letters stand for. */
  function Triple(q: bytes): Option<bytes>
    requires |q| == 4
  {
    var w :- Value(q[0]);
    var x :- Value(q[1]);
    var y :- Value(q[2]);
    var z :- Value(q[3]);
    var v := w * 262144 + x * 4096 + y * 64 + z;
    Some([v / 65536 % 256, v / 256 % 256, v % 256])
  }

  /** A decoder by the standard: groups of four, padding only at the end. */
  function Decode64(t: bytes): Option<bytes> {
    if t == [] then Some([])
    else if |t| < 4 then None
    else if |t| == 4 && t[2] == PAD && t[3] == PAD then
      var three :- Triple([t[0], t[1], 65, 65]);
      Some(three[..1])
    else if |t| == 4 && t[3] == PAD then
      var three :- Triple([t[0], t[1], t[2], 65]);
      Some(three[..2])
    else
      var three :- Triple(t[..4]);
      var rest :- Decode64(t[4..]);
      Some(three + rest)
  }

  lemma Sextets(v: nat)
    requires v < 0x100_0000
    ensures v / 262144 % 64 * 262144 + v / 4096 % 64 * 4096 + v / 64 % 64 * 64 + v % 64 == v
  {
    var x := v / 64;
    var y := x / 64;
    assert v / 4096 == y;
    assert v / 262144 == y / 64 < 64;
  }

  lemma Octets(a: byte, b: byte, c: byte)
    ensures var v := a as int * 65536 + b as int * 256 + c as int;
      v / 65536 % 256 == a && v / 256 % 256 == b && v % 256 == c
  {
    var v := a as int * 65536 + b as int * 256 + c as int;
    assert v / 256 == a as int * 256 + b as int;
    assert v / 65536 == a as int;
  }

  lemma QuadReads(a: byte, b: byte, c: byte)
    ensures Triple(Quad(a, b, c)) == Some([a, b, c])
    ensures forall i :: 0 <= i < 4 ==> Quad(a, b, c)[i] != PAD
  {
    var v := a as int * 65536 + b as int * 256 + c as int;
    LetterReads(v / 262144 % 64);
    LetterReads(v / 4096 % 64);
    LetterReads(v / 64 % 64);
    LetterReads(v % 64);
    Sextets(v);
    Octets(a, b, c);
    hide Letter, Value;
  }

  /** A zero in the third or second place spells `A` there, which is the letter the decoder puts for a pad. */
  lemma PaddedQuad(a: byte, b: byte)
    ensures Quad(a, b, 0)[3] == 65 && Quad(a, 0, 0)[2] == 65
  {
    Multiple(a as int * 1024 + b as int * 4);
    Multiple(a as int * 1024);
    Multiple(a as int * 16);
    hide Letter;
    assert a as int * 65536 + b as int * 256 + 0 == 64 * (a as int * 1024 + b as int * 4);
    assert a as int * 65536 + 0 * 256 + 0 == 64 * (a as int * 1024);
    assert a as int * 1024 == 64 * (a as int * 16);
    LetterZero();
  }

  lemma Multiple(k: nat)
    ensures 64 * k % 64 == 0 && 64 * k / 64 == k
  {}

  lemma LetterZero()
    ensures Letter(0) == 65
  {}

  lemma {:induction false} Base64Decodes(s: bytes)
    ensures Decode64(Base64(s)) == Some(s)
  {
    hide Quad, Triple;
    var t := Base64(s);
    if s == [] {
    } else if |s| == 1 {
      QuadReads(s[0], 0, 0);
      PaddedQuad(s[0], 0);
      var q := Quad(s[0], 0, 0);
      assert t == LastOne(s[0]) == [q[0], q[1], PAD, PAD] && q == [q[0], q[1], 65, 65];
      assert [s[0], 0, 0][..1] == s;
    } else if |s| == 2 {
      QuadReads(s[0], s[1], 0);
      PaddedQuad(s[0], s[1]);
      var q := Quad(s[0], s[1], 0);
      assert t == LastTwo(s[0], s[1]) == [q[0], q[1], q[2], PAD] && q == [q[0], q[1], q[2], 65] && q[2] != PAD;
      assert [s[0], s[1], 0][..2] == s;
    } else {
      QuadReads(s[0], s[1], s[2]);
      var q := Quad(s[0], s[1], s[2]);
      Base64Decodes(s[3..]);
      assert t[..4] == q && t[4..] == Base64(s[3..]) && t[3] == q[3] && q[3] != PAD;
      assert [s[0], s[1], s[2]] + s[3..] == s;
    }
  }

  lemma Base64IsInjective(s: bytes, t: bytes)
    requires Base64(s) == Base64(t)
    ensures s == t
  {
    hide Base64, Decode64;
    Base64Decodes(s);
    Base64Decodes(t);
  }

  /** How many pads finish the coding of n bytes, and how long it is: 4 * ceil(n / 3). */
  function Pads(n: nat): nat {
    (3 - n % 3) % 3
  }

  function Length64(n: nat): nat {
    (n + 2) / 3 * 4
  }

  lemma ThreeMore(n: nat)
    ensures Pads(n + 3) == Pads(n) < 3 && Length64(n + 3) == Length64(n) + 4
    ensures Length64(n) == 0 ==> Pads(n) == 0
    ensures Length64(n) > 0 ==> Length64(n) >= 4
  {}

  lemma SmallLengths(n: nat)
    ensures n == 0 ==> Length64(n) == Pads(n) == 0
    ensures n == 1 ==> Length64(n) == 4 && Pads(n) == 2
    ensures n == 2 ==> Length64(n) == 4 && Pads(n) == 1
  {}

  /** What Base64 is, one group at a time. */
  lemma Groups(s: bytes)
    ensures s == [] ==> Base64(s) == []
    ensures |s| == 1 ==> Base64(s) == LastOne(s[0])
    ensures |s| == 2 ==> Base64(s) == LastTwo(s[0], s[1])
    ensures |s| >= 3 ==> Base64(s) == Quad(s[0], s[1], s[2]) + Base64(s[3..])
  {
    hide Quad, LastOne, LastTwo;
  }

  lemma {:induction false} Base64Length(s: bytes)
    ensures |Base64(s)| == Length64(|s|)
  {
    hide Quad, LastOne, LastTwo, Length64, Pads, Base64;
    SmallLengths(|s|);
    Groups(s);
    if |s| >= 3 {
      Base64Length(s[3..]);
      ThreeMore(|s| - 3);
    }
  }

  /** The last `pads` characters and no others are pads. */
  ghost predicate PaddedAtEnd(t: bytes, pads: nat) {
    forall i :: 0 <= i < |t| ==> (t[i] == PAD <==> i >= |t| - pads)
  }

  lemma LastGroups(a: byte, b: byte)
    ensures PaddedAtEnd(LastOne(a), 2) && PaddedAtEnd(LastTwo(a, b), 1)
  {
    QuadReads(a, 0, 0);
    QuadReads(a, b, 0);
    hide Quad;
    var q, r := Quad(a, 0, 0), Quad(a, b, 0);
    assert q[0] != PAD && q[1] != PAD && r[0] != PAD && r[1] != PAD && r[2] != PAD;
    assert LastOne(a) == [q[0], q[1], PAD, PAD] && LastTwo(a, b) == [r[0], r[1], r[2], PAD];
  }

  lemma PaddedLater(q: bytes, rest: bytes, pads: nat)
    requires |q| == 4 && q[0] != PAD && q[1] != PAD && q[2] != PAD && q[3] != PAD
    requires PaddedAtEnd(rest, pads) && pads <= |rest|
    ensures PaddedAtEnd(q + rest, pads)
  {}

  /** The pads that complete the last group are at the end and nowhere else. */
  lemma {:induction false} Base64Padding(s: bytes)
    ensures PaddedAtEnd(Base64(s), Pads(|s|))
  {
    hide Quad, LastOne, LastTwo, Length64, Pads, Base64, PaddedAtEnd;
    SmallLengths(|s|);
    Groups(s);
    if s == [] {
      NothingPadded();
    } else if |s| < 3 {
      LastGroups(s[0], if |s| == 1 then s[0] else s[1]);
    } else {
      var q := Quad(s[0], s[1], s[2]);
      QuadReads(s[0], s[1], s[2]);
      assert q[0] != PAD && q[1] != PAD && q[2] != PAD && q[3] != PAD;
      Base64Padding(s[3..]);
      Base64Length(s[3..]);
      ThreeMore(|s| - 3);
      PaddedLater(q, Base64(s[3..]), Pads(|s|));
    }
  }

  lemma NothingPadded()
    ensures PaddedAtEnd([], 0)
  {}

  /** `base64_encode`: three bytes at a time, then the one or two left over. */
  method EncodeBase64(raw: bytes) returns (out: bytes)
    ensures out == Base64(raw)
  {
    hide Quad;
    out := [];
    var i := 0;
    assert raw[0..] == raw;
    while i + 3 <= |raw|
      invariant 0 <= i <= |raw|
      invariant out + Base64(raw[i..]) == Base64(raw)
    {
      var q := Quad(raw[i], raw[i + 1], raw[i + 2]);
      assert raw[i..][3..] == raw[i + 3..];
      assert out + (q + Base64(raw[i + 3..])) == (out + q) + Base64(raw[i + 3..]);
      out := out + q;
      i := i + 3;
    }
    if i + 1 == |raw| {
      out := out + LastOne(raw[i]);
    } else if i + 2 == |raw| {
      out := out + LastTwo(raw[i], raw[i + 1]);
    } else {
      assert raw[i..] == [] && out + [] == out;
    }
  }

  // ---- percent-encoding (RFC 3986, section 2) ----

  const PERCENT: byte := 37
  const SLASH: byte := 47

  predicate Unreserved(c: byte) {
    65 <= c <= 90 || 97 <= c <= 122 || 48 <= c <= 57 || c == 45 || c == 95 || c == 46 || c == 126
  }

  function UpperHex(d: nat): byte
    requires d < 16
  {
    if d < 10 then 48 + d else 55 + d
  }

  function UriByte(c: byte, encodeSlash: bool): bytes {
    if Unreserved(c) || (c == SLASH && !encodeSlash) then [c] else [PERCENT, UpperHex(c / 16), UpperHex(c % 16)]
  }

  function UriEncode(s: bytes, encodeSlash: bool): bytes {
    if s == [] then [] else UriByte(s[0], encodeSlash) + UriEncode(s[1..], encodeSlash)
  }

  function UriDecode(t: bytes): Option<bytes> {
    if t == [] then Some([])
    else if t[0] != PERCENT then
      var rest :- UriDecode(t[1..]);
      Some([t[0]] + rest)
    else if |t| < 3 then None
    else
      var hi :- HexValue(t[1]);
      var lo :- HexValue(t[2]);
      var rest :- UriDecode(t[3..]);
      Some([hi * 16 + lo] + rest)
  }

  /** The bytes left as they are: the unreserved characters of RFC 3986 section 2.3, and slashes where they are kept. Every
      other byte is a percent sign and two digits. */
  lemma UriByteIs(c: byte, encodeSlash: bool)
    ensures UriByte(c, encodeSlash) == [c] <==>
            || 'A' as int <= c <= 'Z' as int || 'a' as int <= c <= 'z' as int || '0' as int <= c <= '9' as int
            || c == '-' as int || c == '_' as int || c == '.' as int || c == '~' as int || (c == '/' as int && !encodeSlash)
    ensures UriByte(c, encodeSlash) != [c] ==>
              && |UriByte(c, encodeSlash)| == 3 && UriByte(c, encodeSlash)[0] == '%' as int
              && IsUpperHex(UriByte(c, encodeSlash)[1]) && IsUpperHex(UriByte(c, encodeSlash)[2])
  {}

  predicate IsUpperHex(c: byte) {
    '0' as int <= c <= '9' as int || 'A' as int <= c <= 'F' as int
  }

  lemma UriByteReads(c: byte, encodeSlash: bool, rest: bytes)
    requires UriDecode(rest).Some?
    ensures UriDecode(UriByte(c, encodeSlash) + rest) == Some([c] + UriDecode(rest).value)
  {
    hide Unreserved, UpperHex, HexValue;
    HexReads(c / 16);
    HexReads(c % 16);
    PlainIsNotPercent(c);
    var head := UriByte(c, encodeSlash);
    if |head| == 1 {
      assert (head + rest)[1..] == rest;
    } else {
      assert (head + rest)[3..] == rest;
    }
  }

  lemma HexReads(d: nat)
    requires d < 16
    ensures HexValue(UpperHex(d)) == Some(d)
  {}

  lemma PlainIsNotPercent(c: byte)
    ensures Unreserved(c) ==> c != PERCENT
  {}

  /** Either way of treating slashes is undone by the same decoder. */
  lemma {:induction false} UriDecodes(s: bytes, encodeSlash: bool)
    ensures UriDecode(UriEncode(s, encodeSlash)) == Some(s)
  {
    hide UriByte;
    if s != [] {
      UriDecodes(s[1..], encodeSlash);
      UriByteReads(s[0], encodeSlash, UriEncode(s[1..], encodeSlash));
      assert [s[0]] + s[1..] == s;
    }
  }

  /** Nothing but unreserved characters, percent signs and, unless they are encoded, slashes; two texts, even encoded
      differently, never meet. */
  lemma UriIsInjective(s: bytes, t: bytes, one: bool, other: bool)
    requires UriEncode(s, one) == UriEncode(t, other)
    ensures s == t
  {
    hide UriEncode, UriDecode;
    UriDecodes(s, one);
    UriDecodes(t, other);
  }

  lemma {:induction false} UriAlphabet(s: bytes, encodeSlash: bool)
    ensures forall c :: c in UriEncode(s, encodeSlash) ==> Unreserved(c) || c == PERCENT || (c == SLASH && !encodeSlash)
  {
    if s != [] {
      UriAlphabet(s[1..], encodeSlash);
    }
  }

  /** `uri_encode`: byte by byte. */
  method EncodeUri(s: bytes, encodeSlash: bool) returns (out: bytes)
    ensures out == UriEncode(s, encodeSlash)
  {
    out := [];
    var i := 0;
    assert s[0..] == s;
    while i < |s|
      invariant 0 <= i <= |s|
      invariant out + UriEncode(s[i..], encodeSlash) == UriEncode(s, encodeSlash)
    {
      hide Unreserved, UpperHex, UriEncode;
      var c := s[i];
      UriStep(out, s, i, encodeSlash);
      if Unreserved(c) || (c == SLASH && !encodeSlash) {
        out := out + [c];
      } else {
        out := out + [PERCENT, UpperHex(c / 16), UpperHex(c % 16)];
      }
      i := i + 1;
    }
    assert out + [] == out;
  }

  lemma UriStep(out: bytes, s: bytes, i: nat, encodeSlash: bool)
    requires i < |s|
    ensures out + UriEncode(s[i..], encodeSlash) == (out + UriByte(s[i], encodeSlash)) + UriEncode(s[i + 1..], encodeSlash)
  {
    hide UriByte;
    assert s[i..][1..] == s[i + 1..];
  }
}
