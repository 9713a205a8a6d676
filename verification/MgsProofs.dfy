/** UUIDs and messages survive the wire. */
module MgsProofs {
  import opened Bytes
  import opened Mgs

  // ---- UUIDs ----

  lemma NibbleReads(d: nat)
    requires d < 16
    ensures HexValue(HexDigit(d)) == Some(d) && IsLowerHex(HexDigit(d)) && HexDigit(d) != DASH
  {}

  function Then(b: bytes, r: Option<bytes>): Option<bytes> {
    match r
    case None => None
    case Some(more) => Some(b + more)
  }

  lemma ThenTwice(a: bytes, b: bytes, r: Option<bytes>)
    ensures Then(a, Then(b, r)) == Then(a + b, r)
  {
    if r.Some? {
      assert a + (b + r.value) == (a + b) + r.value;
    }
  }

  lemma PairReads(x: byte, more: bytes, want: nat)
    requires want > 0
    ensures HexPairs([HexDigit(x / 16), HexDigit(x % 16)] + more, want) == Then([x], HexPairs(more, want - 1))
  {
    NibbleReads(x / 16);
    NibbleReads(x % 16);
    hide HexValue, HexDigit;
    assert ([HexDigit(x / 16), HexDigit(x % 16)] + more)[2..] == more;
  }

  /** Lower-case hex reads back as the bytes it was made from. */
  lemma {:induction false} PairsRead(b: bytes, rest: bytes, want: nat)
    requires |b| <= want
    ensures HexPairs(HexText(b) + rest, want) == Then(b, HexPairs(rest, want - |b|))
  {
    hide HexPairs, HexDigit;
    if b == [] {
      assert HexText(b) + rest == rest;
      assert HexPairs(rest, want).Some? ==> [] + HexPairs(rest, want).value == HexPairs(rest, want).value;
    } else {
      var more := HexText(b[1..]) + rest;
      assert HexText(b) + rest == [HexDigit(b[0] / 16), HexDigit(b[0] % 16)] + more;
      PairReads(b[0], more, want);
      PairsRead(b[1..], rest, want - 1);
      ThenTwice([b[0]], b[1..], HexPairs(rest, want - |b|));
      assert [b[0]] + b[1..] == b;
    }
  }

  lemma DashSkipped(rest: bytes, want: nat)
    requires rest != [] && want > 0
    ensures HexPairs([DASH] + rest, want) == HexPairs(rest, want)
  {
    assert ([DASH] + rest)[1..] == rest;
  }

  lemma {:induction false} HexTextLength(b: bytes)
    ensures |HexText(b)| == 2 * |b|
  {
    if b != [] {
      HexTextLength(b[1..]);
    }
  }

  lemma {:induction false} HexTextDigits(b: bytes)
    ensures forall i :: 0 <= i < |HexText(b)| ==> IsLowerHex(HexText(b)[i])
  {
    if b != [] {
      NibbleReads(b[0] / 16);
      NibbleReads(b[0] % 16);
      HexTextDigits(b[1..]);
    }
  }

  lemma NothingFollows(want: nat)
    ensures HexPairs([], want) == Some([])
  {}

  lemma GroupReads(b: bytes, s: bytes, want: nat)
    requires |b| < want && s != []
    ensures HexPairs(HexText(b) + ([DASH] + s), want) == Then(b, HexPairs(s, want - |b|))
  {
    hide HexPairs, HexText;
    PairsRead(b, [DASH] + s, want);
    DashSkipped(s, want - |b|);
  }

  /** Grouped text reads back, dashes and all. */
  lemma GroupsRead(a: bytes, b: bytes, c: bytes, d: bytes, e: bytes)
    requires |a| == 4 && |b| == 2 && |c| == 2 && |d| == 2 && |e| == 6
    ensures HexPairs(HexText(a) + ([DASH] + (HexText(b) + ([DASH] + (HexText(c) + ([DASH] + (HexText(d)
                     + ([DASH] + HexText(e)))))))), 16)
         == Some(a + (b + (c + (d + e))))
  {
    hide HexText, HexPairs, Then;
    HexTextLength(e);
    var s4 := HexText(e);
    var s3 := HexText(d) + ([DASH] + s4);
    var s2 := HexText(c) + ([DASH] + s3);
    var s1 := HexText(b) + ([DASH] + s2);
    GroupReads(a, s1, 16);
    GroupReads(b, s2, 12);
    GroupReads(c, s3, 10);
    GroupReads(d, s4, 8);
    PairsRead(e, [], 6);
    NothingFollows(0);
    assert s4 + [] == s4;
    ThenAll(a, b, c, d, e);
  }

  lemma ThenAll(a: bytes, b: bytes, c: bytes, d: bytes, e: bytes)
    ensures Then(a, Then(b, Then(c, Then(d, Then(e, Some([])))))) == Some(a + (b + (c + (d + e))))
  {
    assert e + [] == e;
  }

  /** From the wire to text and back. */
  lemma UuidFromWireReads(wire: bytes)
    requires |wire| == 16
    ensures UuidToWire(UuidFromWire(wire)) == Some(wire)
  {
    hide HexText, HexPairs;
    var b := SwapHalves(wire);
    GroupsRead(b[..4], b[4..6], b[6..8], b[8..10], b[10..]);
    assert b[..4] + (b[4..6] + (b[6..8] + (b[8..10] + b[10..]))) == b;
    assert SwapHalves(b) == wire;
  }

  lemma UuidFromWireIsCanonical(wire: bytes)
    requires |wire| == 16
    ensures CanonicalUuid(UuidFromWire(wire))
  {
    hide HexText;
    var b := SwapHalves(wire);
    var g1, g2, g3, g4, g5 := b[..4], b[4..6], b[6..8], b[8..10], b[10..];
    Spells(g1);
    Spells(g2);
    Spells(g3);
    Spells(g4);
    Spells(g5);
    GroupsAreCanonical(HexText(g1), HexText(g2), HexText(g3), HexText(g4), HexText(g5));
  }

  ghost predicate AllHex(s: bytes, n: nat) {
    |s| == n && forall i :: 0 <= i < n ==> IsLowerHex(s[i])
  }

  lemma Spells(b: bytes)
    ensures AllHex(HexText(b), 2 * |b|)
  {
    HexTextLength(b);
    HexTextDigits(b);
  }

  lemma GroupsAreCanonical(a: bytes, b: bytes, c: bytes, d: bytes, e: bytes)
    requires AllHex(a, 8) && AllHex(b, 4) && AllHex(c, 4) && AllHex(d, 4) && AllHex(e, 12)
    ensures CanonicalUuid(a + ([DASH] + (b + ([DASH] + (c + ([DASH] + (d + ([DASH] + e))))))))
  {
    hide IsLowerHex;
  }

  /** The bytes a run of lower-case hex digits spells. */
  ghost function Spelled(text: bytes): (b: bytes)
    requires |text| % 2 == 0 && forall i :: 0 <= i < |text| ==> IsLowerHex(text[i])
    ensures |b| == |text| / 2
  {
    if text == [] then []
    else
      assert IsLowerHex(text[0]) && IsLowerHex(text[1]);
      var hi, lo := HexValue(text[0]).value, HexValue(text[1]).value;
      [hi * 16 + lo] + Spelled(text[2..])
  }

  lemma {:induction false} SpelledIsSpelled(text: bytes)
    requires |text| % 2 == 0 && forall i :: 0 <= i < |text| ==> IsLowerHex(text[i])
    ensures HexText(Spelled(text)) == text
  {
    if text != [] {
      SpelledIsSpelled(text[2..]);
      PairSpells(text[0], text[1]);
      hide HexValue, HexDigit, IsLowerHex;
      assert Spelled(text)[1..] == Spelled(text[2..]);
      assert text == [text[0], text[1]] + text[2..];
    }
  }

  lemma PairSpells(hi: byte, lo: byte)
    requires IsLowerHex(hi) && IsLowerHex(lo)
    ensures HexValue(hi).Some? && HexValue(lo).Some?
    ensures var h, l := HexValue(hi).value, HexValue(lo).value;
      HexDigit(h) == hi && HexDigit(l) == lo && (h * 16 + l) / 16 == h && (h * 16 + l) % 16 == l
  {
  }

  /** From canonical text to the wire and back. */
  lemma CanonicalUuidReads(text: bytes)
    requires CanonicalUuid(text)
    ensures UuidToWire(text).Some? && UuidFromWire(UuidToWire(text).value) == text
  {
    hide HexText, HexPairs, CanonicalUuid, AllHex, UuidFromWire, UuidToWire;
    var a, b, c, d, e := CutCanonical(text);
    var va := SpelledBy(a, 8);
    var vb := SpelledBy(b, 4);
    var vc := SpelledBy(c, 4);
    var vd := SpelledBy(d, 4);
    var ve := SpelledBy(e, 12);
    var wire := Joined(va, vb, vc, vd, ve);
    UuidFromWireReads(wire);
  }

  lemma SpelledBy(text: bytes, n: nat) returns (b: bytes)
    requires AllHex(text, n) && n % 2 == 0
    ensures |b| == n / 2 && HexText(b) == text
  {
    b := Spelled(text);
    SpelledIsSpelled(text);
  }

  lemma CutCanonical(text: bytes) returns (a: bytes, b: bytes, c: bytes, d: bytes, e: bytes)
    requires CanonicalUuid(text)
    ensures AllHex(a, 8) && AllHex(b, 4) && AllHex(c, 4) && AllHex(d, 4) && AllHex(e, 12)
    ensures text == a + ([DASH] + (b + ([DASH] + (c + ([DASH] + (d + ([DASH] + e)))))))
  {
    hide IsLowerHex;
    a, b, c, d, e := text[..8], text[9..13], text[14..18], text[19..23], text[24..];
  }

  lemma Joined(a: bytes, b: bytes, c: bytes, d: bytes, e: bytes) returns (wire: bytes)
    requires |a| == 4 && |b| == 2 && |c| == 2 && |d| == 2 && |e| == 6
    ensures |wire| == 16
    ensures UuidFromWire(wire) == HexText(a) + ([DASH] + (HexText(b) + ([DASH] + (HexText(c) + ([DASH] + (HexText(d)
            + ([DASH] + HexText(e))))))))
  {
    hide HexText;
    var all := a + (b + (c + (d + e)));
    wire := SwapHalves(all);
    assert SwapHalves(wire) == all;
    assert all[..4] == a && all[4..6] == b && all[6..8] == c && all[8..10] == d && all[10..] == e;
  }

  // ---- messages ----

  lemma {:induction false} TrimDropsPadding(t: bytes, n: nat)
    ensures TrimType(t + Fill(n, 32)) == TrimType(t)
  {
    if n > 0 {
      assert (t + Fill(n, 32))[..|t| + n - 1] == t + Fill(n - 1, 32);
      TrimDropsPadding(t, n - 1);
    } else {
      assert t + Fill(0, 32) == t;
    }
  }

  lemma {:induction false} TrimIsPrefix(t: bytes)
    ensures TrimType(t) <= t
    ensures TrimType(t) == t <==> t == [] || !(t[|t| - 1] == 32 || t[|t| - 1] == 0)
  {
    if t != [] && (t[|t| - 1] == 32 || t[|t| - 1] == 0) {
      TrimIsPrefix(t[..|t| - 1]);
    }
  }

  /** Types that fit their field and do not end in padding. */
  ghost predicate FittingType(t: bytes) {
    |t| <= TYPE_LENGTH && (t == [] || (t[|t| - 1] != 32 && t[|t| - 1] != 0))
  }

  lemma TypeSurvives(t: bytes)
    ensures TrimType(PadType(t)) == t <==> FittingType(t)
  {
    if |t| < TYPE_LENGTH {
      TrimDropsPadding(t, TYPE_LENGTH - |t|);
    }
    TrimIsPrefix(t);
    TrimIsPrefix(PadType(t));
  }

  lemma IdSurvives(id: bytes)
    ensures UuidFromWire(IdBytes(id)) == id <==> CanonicalUuid(id)
  {
    hide UuidFromWire, UuidToWire, CanonicalUuid;
    UuidFromWireIsCanonical(IdBytes(id));
    if CanonicalUuid(id) {
      CanonicalUuidReads(id);
    }
  }

  /** The field writes tile bytes 0 to 119: each field is found at its own offset. */
  lemma FieldsTile(m: AgentMessage, digest: bytes)
    requires |digest| == 32
    ensures var h := Header(m, digest);
      && h[0..4] == BigEndian(116, 4)
      && h[4..36] == PadType(m.messageType)
      && h[36..40] == BigEndian(m.schemaVersion, 4)
      && h[40..48] == BigEndian(m.createdMs, 8)
      && h[48..56] == BigEndian(if m.sequence >= 0 then m.sequence else m.sequence + TWO64, 8)
      && h[56..64] == BigEndian(m.flags, 8)
      && h[64..80] == IdBytes(m.messageId)
      && h[80..112] == digest
      && h[112..116] == BigEndian(m.payloadType, 4)
      && h[116..120] == BigEndian(|m.payload| % TWO32, 4)
  {
    hide BigEndian, PadType, IdBytes;
    var f9 := BigEndian(|m.payload| % TWO32, 4);
    var f8 := BigEndian(m.payloadType, 4) + f9;
    var f7 := digest + f8;
    var f6 := IdBytes(m.messageId) + f7;
    var f5 := BigEndian(m.flags, 8) + f6;
    var f4 := BigEndian(Unsigned(m.sequence), 8) + f5;
    var f3 := BigEndian(m.createdMs, 8) + f4;
    var f2 := BigEndian(m.schemaVersion, 4) + f3;
    var f1 := PadType(m.messageType) + f2;
    var h := Header(m, digest);
    assert h[0..] == h;
    NextField(h, 0, BigEndian(HEADER_LENGTH, 4), f1);
    NextField(h, TYPE_OFFSET, PadType(m.messageType), f2);
    NextField(h, SCHEMA_OFFSET, BigEndian(m.schemaVersion, 4), f3);
    NextField(h, CREATED_OFFSET, BigEndian(m.createdMs, 8), f4);
    NextField(h, SEQUENCE_OFFSET, BigEndian(Unsigned(m.sequence), 8), f5);
    NextField(h, FLAGS_OFFSET, BigEndian(m.flags, 8), f6);
    NextField(h, UUID_OFFSET, IdBytes(m.messageId), f7);
    NextField(h, DIGEST_OFFSET, digest, f8);
    NextField(h, PAYLOAD_TYPE_OFFSET, BigEndian(m.payloadType, 4), f9);
    assert h[PAYLOAD_LENGTH_OFFSET..PAYLOAD_OFFSET] == h[PAYLOAD_LENGTH_OFFSET..];
  }

  lemma NextField(h: bytes, at: nat, f: bytes, rest: bytes)
    requires at <= |h| && h[at..] == f + rest
    ensures at + |f| <= |h| && h[at..at + |f|] == f && h[at + |f|..] == rest
  {
    assert |h[at..]| == |f| + |rest|;
    assert h[at..at + |f|] == h[at..][..|f|] && h[at + |f|..] == h[at..][|f|..];
  }

  lemma FieldReads(raw: bytes, at: nat, n: nat, v: nat)
    requires at + n <= |raw| && raw[at..at + n] == BigEndian(v, n) && (n == 4 || n == 8) && v < Pow256(n)
    ensures Field(raw, at, n) == v
  {
    hide BigEndian, FromBigEndian, Pow256;
    BigEndianDecodes(v, n);
  }

  /** The type, cut to 32 bytes or filled up with spaces. */
  lemma TypeField(t: bytes)
    ensures var f := PadType(t);
      && |f| == 32 && f[..Min(|t|, 32)] == t[..Min(|t|, 32)]
      && forall i :: |t| <= i < 32 ==> f[i] == 32
  {}

  /** What a message comes back as, whatever it was. */
  lemma SerializedReads(m: AgentMessage, digest: bytes)
    requires |digest| == 32
    ensures Deserialize(Serialize(m, digest))
         == Ok(m.(messageType := TrimType(PadType(m.messageType)), messageId := UuidFromWire(IdBytes(m.messageId))))
  {
    PowersOf256();
    hide BigEndian, FromBigEndian, Pow256, PadType, IdBytes, UuidFromWire, TrimType, Field, Header;
    var h := Header(m, digest);
    var raw := Serialize(m, digest);
    FieldsTile(m, digest);
    forall i: nat, j: nat | i <= j <= PAYLOAD_OFFSET ensures raw[i..j] == h[i..j] {}
    FieldReads(raw, 0, 4, HEADER_LENGTH);
    FieldReads(raw, SCHEMA_OFFSET, 4, m.schemaVersion);
    FieldReads(raw, CREATED_OFFSET, 8, m.createdMs);
    FieldReads(raw, SEQUENCE_OFFSET, 8, Unsigned(m.sequence));
    FieldReads(raw, FLAGS_OFFSET, 8, m.flags);
    FieldReads(raw, PAYLOAD_TYPE_OFFSET, 4, m.payloadType);
    assert raw[HEADER_LENGTH + 4..] == m.payload;
  }

  /** `deserialize(serialize(m)) == m` exactly for messages whose type fits its field without trailing padding and
      whose id is a canonical UUID; sequences of the full signed range and any payload come through. */
  lemma MessageRoundTrip(m: AgentMessage, digest: bytes)
    requires |digest| == 32
    ensures Deserialize(Serialize(m, digest)) == Ok(m) <==> FittingType(m.messageType) && CanonicalUuid(m.messageId)
  {
    hide Serialize, Deserialize, PadType, TrimType, UuidFromWire, IdBytes, FittingType, CanonicalUuid;
    SerializedReads(m, digest);
    TypeSurvives(m.messageType);
    IdSurvives(m.messageId);
  }

  /** Every field is read at its own offset; a longer declared header only moves the payload behind it. */
  lemma LongerHeader(raw: bytes)
    ensures Deserialize(raw).TooShort? <==> |raw| < 120
    ensures |raw| >= 120 ==>
              (Deserialize(raw).Ok? <==> 116 <= FromBigEndian(raw[0..4]) && FromBigEndian(raw[0..4]) + 4 <= |raw|)
    ensures Deserialize(raw).Ok? ==>
              var m, n := Deserialize(raw).m, FromBigEndian(raw[0..4]);
              && m.payload == raw[n + 4..] && m.messageType == TrimType(raw[4..36])
              && m.schemaVersion == FromBigEndian(raw[36..40]) && m.createdMs == FromBigEndian(raw[40..48])
              && m.sequence % TWO64 == FromBigEndian(raw[48..56]) && m.flags == FromBigEndian(raw[56..64])
              && m.messageId == UuidFromWire(raw[64..80]) && m.payloadType == FromBigEndian(raw[112..116])
  {
    hide FromBigEndian, TrimType, UuidFromWire;
    if |raw| >= 120 {
      assert Field(raw, 48, 8) == FromBigEndian(raw[48..56]);
    }
  }

  /** On the wire the second half of an id stands first: the digits of byte k of the text are those of byte (k + 8) % 16. */
  lemma HalvesAreSwapped(wire: bytes, k: nat)
    requires |wire| == 16 && k < 16
    ensures var text, b := UuidFromWire(wire), wire[(k + 8) % 16];
      var at := 2 * k + (if k >= 10 then 4 else if k >= 8 then 3 else if k >= 6 then 2 else if k >= 4 then 1 else 0);
      |text| == 36 && text[at] == HexDigit(b / 16) && text[at + 1] == HexDigit(b % 16)
  {
    hide HexText, HexDigit;
    var b := SwapHalves(wire);
    assert b[k] == wire[(k + 8) % 16];
    HexTextLength(b[..4]);
    HexTextLength(b[4..6]);
    HexTextLength(b[6..8]);
    HexTextLength(b[8..10]);
    HexTextLength(b[10..]);
    if k < 4 {
      HexTextAt(b[..4], k);
    } else if k < 6 {
      HexTextAt(b[4..6], k - 4);
    } else if k < 8 {
      HexTextAt(b[6..8], k - 6);
    } else if k < 10 {
      HexTextAt(b[8..10], k - 8);
    } else {
      HexTextAt(b[10..], k - 10);
    }
  }

  lemma {:induction false} HexTextAt(b: bytes, k: nat)
    requires k < |b|
    ensures |HexText(b)| == 2 * |b| && HexText(b)[2 * k] == HexDigit(b[k] / 16) && HexText(b)[2 * k + 1] == HexDigit(b[k] % 16)
  {
    HexTextLength(b);
    if k > 0 {
      HexTextAt(b[1..], k - 1);
    }
  }

  /** An id that is not one is written as zeros. */
  lemma BadIdIsZeros(m: AgentMessage, digest: bytes)
    requires |digest| == 32 && UuidToWire(m.messageId) == None
    ensures Header(m, digest)[64..80] == [0, 0, 0, 0, 0, 0, 0, 0, 0, 0, 0, 0, 0, 0, 0, 0]
  {
    hide Header;
    FieldsTile(m, digest);
  }

  /** The length check is made in 32 bits: the slice past the end happens exactly when it wraps. */
  lemma OutOfRangeExactlyOnWrap(raw: bytes)
    ensures Deserialize(raw).OutOfRange?
       <==> |raw| >= PAYLOAD_OFFSET && Field(raw, 0, 4) >= TWO32 - 4 && |raw| < Field(raw, 0, 4) + 4
  {
    hide Field;
  }

  /** Such a message exists: 120 bytes that declare a header of 2^32 - 1. */
  lemma WrapHappens(tail: bytes)
    requires |tail| == 116
    ensures Deserialize([255, 255, 255, 255] + tail).OutOfRange?
  {
    hide FromBigEndian, Deserialize;
    var raw := [255, 255, 255, 255] + tail;
    var one: bytes, two: bytes := [] + [255], [255] + [255];
    var three: bytes, four: bytes := [255, 255] + [255], [255, 255, 255] + [255];
    NothingYet();
    Appended([], 255);
    assert one == [255];
    Appended([255], 255);
    assert two == [255, 255];
    Appended([255, 255], 255);
    assert three == [255, 255, 255];
    Appended([255, 255, 255], 255);
    assert raw[0..4] == four;
    assert Field(raw, 0, 4) == TWO32 - 1;
    OutOfRangeExactlyOnWrap(raw);
  }

  lemma NothingYet()
    ensures FromBigEndian([]) == 0
  {}

  lemma Appended(s: bytes, b: byte)
    ensures FromBigEndian(s + [b]) == FromBigEndian(s) * 256 + b
  {
    assert (s + [b])[..|s|] == s;
  }
}
