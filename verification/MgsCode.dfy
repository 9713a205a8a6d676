/** The message codec as it runs: fields shifted into one buffer in place, and read back by accumulating loops. */
module MgsCode {
  import opened Bytes
  import opened Mgs
  import opened MgsProofs

  // ---- fields ----

  /** A 4- or 8-byte integer stored most significant byte first; nothing else in the buffer changes. */
  method PutUnsigned(b: array<byte>, at: nat, v: nat, width: nat)
    requires at + width <= b.Length
    modifies b
    ensures b[..at + width] == old(b[..at]) + BigEndian(v, width)
    ensures b[at + width..] == old(b[at + width..])
  {
    var i := 0;
    while i < width
      invariant 0 <= i <= width
      invariant b[..at] == old(b[..at]) && b[at + width..] == old(b[at + width..])
      invariant b[at..at + i] == BigEndian(v, width)[..i]
    {
      hide BigEndian, Pow256;
      BigEndianByte(v, width, i);
      b[at + i] := v / Pow256(width - 1 - i) % 256;
      i := i + 1;
    }
    assert b[..at + width] == b[..at] + b[at..at + width];
    assert BigEndian(v, width)[..width] == BigEndian(v, width);
  }

  /** A 4- or 8-byte integer read by shifting each byte in, in a register of that width. */
  method GetUnsigned(raw: bytes, at: nat, width: nat) returns (v: nat)
    requires at + width <= |raw|
    ensures v == FromBigEndian(raw[at..at + width])
  {
    v := 0;
    var i := 0;
    while i < width
      invariant 0 <= i <= width
      invariant v == FromBigEndian(raw[at..at + i]) < Pow256(i)
    {
      hide Pow256, FromBigEndian;
      ShiftFits(v, i, width);
      v := v * 256 % Pow256(width) + raw[at + i];
      assert raw[at..at + i + 1] == raw[at..at + i] + [raw[at + i]];
      Appended(raw[at..at + i], raw[at + i]);
      i := i + 1;
    }
  }

  /** A register of `width` bytes loses nothing while fewer than `width` bytes have been shifted in. */
  lemma ShiftFits(v: nat, i: nat, width: nat)
    requires i < width && v < Pow256(i)
    ensures v * 256 % Pow256(width) == v * 256 && v * 256 + 255 < Pow256(i + 1)
  {
    hide Pow256;
    PowersGrow(i + 1, width);
    NextPower(i);
    SmallRemainder(v * 256, Pow256(width));
  }

  lemma NextPower(i: nat)
    ensures Pow256(i + 1) == 256 * Pow256(i)
  {}

  lemma SmallRemainder(x: nat, p: nat)
    requires x < p
    ensures x % p == x
  {}

  lemma {:induction false} PowersGrow(i: nat, k: nat)
    requires i <= k
    ensures Pow256(i) <= Pow256(k)
    decreases k - i
  {
    if i < k {
      PowersGrow(i + 1, k);
    }
  }

  method CopyInto(b: array<byte>, at: nat, data: bytes)
    requires at + |data| <= b.Length
    modifies b
    ensures b[..at + |data|] == old(b[..at]) + data
    ensures b[at + |data|..] == old(b[at + |data|..])
  {
    var i := 0;
    while i < |data|
      invariant 0 <= i <= |data|
      invariant b[..at] == old(b[..at]) && b[at + |data|..] == old(b[at + |data|..])
      invariant b[at..at + i] == data[..i]
    {
      b[at + i] := data[i];
      i := i + 1;
    }
    assert b[..at + |data|] == b[..at] + b[at..at + |data|];
  }

  method PutType(b: array<byte>, at: nat, t: bytes)
    requires at + TYPE_LENGTH <= b.Length
    modifies b
    ensures b[..at + TYPE_LENGTH] == old(b[..at]) + PadType(t)
    ensures b[at + TYPE_LENGTH..] == old(b[at + TYPE_LENGTH..])
  {
    var i := 0;
    while i < TYPE_LENGTH
      invariant 0 <= i <= TYPE_LENGTH
      invariant b[..at] == old(b[..at]) && b[at + TYPE_LENGTH..] == old(b[at + TYPE_LENGTH..])
      invariant b[at..at + i] == PadType(t)[..i]
    {
      b[at + i] := if i < |t| then t[i] else 32;
      i := i + 1;
    }
    assert b[..at + TYPE_LENGTH] == b[..at] + b[at..at + TYPE_LENGTH];
    assert PadType(t)[..TYPE_LENGTH] == PadType(t);
  }

  // ---- UUIDs ----

  /** One pass over the text, a byte per pair of digits, dashes skipped between pairs. */
  method ReadUuid(text: bytes) returns (r: Option<bytes>)
    ensures r == UuidToWire(text)
  {
    var found := new byte[16];
    var i, n := 0, 0;
    assert text[0..] == text && found[..0] == [];
    NothingBefore(HexPairs(text, 16));
    while i + 1 < |text| && n < 16
      invariant 0 <= i <= |text| && 0 <= n <= 16
      invariant HexPairs(text, 16) == Then(found[..n], HexPairs(text[i..], 16 - n))
      decreases |text| - i
    {
      hide Then;
      var rest := text[i..];
      assert rest[1..] == text[i + 1..] && rest[2..] == text[i + 2..];
      if text[i] == DASH {
        i := i + 1;
      } else {
        var high, low := HexValue(text[i]), HexValue(text[i + 1]);
        if high == None || low == None {
          NothingAfter(found[..n]);
          return None;
        }
        var hi, lo := high.value, low.value;
        ghost var before := found[..n];
        PairThen(rest, 16 - n, hi, lo);
        found[n] := hi * 16 + lo;
        n := n + 1;
        ThenTwice(before, [hi * 16 + lo], HexPairs(text[i + 2..], 16 - n));
        assert found[..n] == before + [hi * 16 + lo];
        i := i + 2;
      }
    }
    assert found[..n] + [] == found[..n];
    if n != 16 {
      return None;
    }
    assert found[..16] == found[..];
    r := Some(found[8..] + found[..8]);
  }

  lemma NothingBefore(r: Option<bytes>)
    ensures Then([], r) == r
  {
    assert r.Some? ==> [] + r.value == r.value;
  }

  lemma NothingAfter(b: bytes)
    ensures Then(b, None) == None
  {}

  lemma PairThen(rest: bytes, want: nat, hi: nat, lo: nat)
    requires |rest| >= 2 && want > 0 && rest[0] != DASH && HexValue(rest[0]) == Some(hi) && HexValue(rest[1]) == Some(lo)
    ensures HexPairs(rest, want) == Then([hi * 16 + lo], HexPairs(rest[2..], want - 1))
  {}

  /** A dash before the bytes that open a group, then two digits for each byte. */
  method SpellUuid(wire: bytes) returns (out: bytes)
    requires |wire| == 16
    ensures out == UuidFromWire(wire)
  {
    var b := wire[8..] + wire[..8];
    out := [];
    var i := 0;
    hide UuidFromWire, StillToSpell, HexText;
    NoneSpelledYet(b);
    while i < 16
      invariant 0 <= i <= 16
      invariant out + StillToSpell(b, i) == StillToSpell(b, 0)
    {
      ghost var before := out;
      if OpensGroup(i) {
        out := out + [DASH];
      }
      hide HexDigit, StillToSpell;
      SpellStep(before, b, i);
      out := out + [HexDigit(b[i] / 16)];
      out := out + [HexDigit(b[i] % 16)];
      i := i + 1;
    }
    AllSpelled(out, b);
    GroupsSpelled(b);
    SpellsWire(wire);
  }

  lemma NoneSpelledYet(b: bytes)
    requires |b| == 16
    ensures [] + StillToSpell(b, 0) == StillToSpell(b, 0)
  {}

  lemma AllSpelled(out: bytes, b: bytes)
    requires |b| == 16
    ensures out + StillToSpell(b, 16) == out
  {}

  lemma SpellStep(out: bytes, b: bytes, i: nat)
    requires |b| == 16 && i < 16
    ensures var front := if OpensGroup(i) then out + [DASH] else out;
      front + [HexDigit(b[i] / 16)] + [HexDigit(b[i] % 16)] + StillToSpell(b, i + 1) == out + StillToSpell(b, i)
  {
    hide HexDigit;
    var rest := StillToSpell(b, i + 1);
    var front := if OpensGroup(i) then out + [DASH] else out;
    var hi, lo := HexDigit(b[i] / 16), HexDigit(b[i] % 16);
    assert front + [hi] + [lo] + rest == front + ([hi, lo] + rest);
    assert out + [DASH] + ([hi, lo] + rest) == out + ([DASH] + ([hi, lo] + rest));
  }

  lemma SpellsWire(wire: bytes)
    requires |wire| == 16
    ensures var b := wire[8..] + wire[..8];
      UuidFromWire(wire) == HexText(b[..4]) + ([DASH] + (HexText(b[4..6]) + ([DASH] + (HexText(b[6..8]) + ([DASH]
                          + (HexText(b[8..10]) + ([DASH] + HexText(b[10..]))))))))
  {
    hide HexText;
  }

  predicate OpensGroup(i: nat) {
    i == 4 || i == 6 || i == 8 || i == 10
  }

  ghost function StillToSpell(b: bytes, i: nat): bytes
    requires |b| == 16 && i <= 16
    decreases 16 - i
  {
    if i == 16 then []
    else if OpensGroup(i) then [DASH] + Digits(b, i)
    else Digits(b, i)
  }

  ghost function Digits(b: bytes, i: nat): bytes
    requires |b| == 16 && i < 16
    decreases 16 - i, 0
  {
    [HexDigit(b[i] / 16), HexDigit(b[i] % 16)] + StillToSpell(b, i + 1)
  }

  lemma {:induction false} GroupSpelled(b: bytes, i: nat, j: nat)
    requires |b| == 16 && i < j <= 16 && forall k :: i < k < j ==> !OpensGroup(k)
    ensures Digits(b, i) == HexText(b[i..j]) + StillToSpell(b, j)
    decreases j - i
  {
    hide HexText, StillToSpell, HexDigit;
    FirstSpelled(b[i..j]);
    assert b[i..j][0] == b[i];
    if i + 1 == j {
      assert b[i..j][1..] == [];
      NoneSpelled();
    } else {
      GroupSpelled(b, i + 1, j);
      assert b[i..j][1..] == b[i + 1..j];
      NoDashBefore(b, i + 1);
    }
  }

  lemma FirstSpelled(b: bytes)
    requires b != []
    ensures HexText(b) == [HexDigit(b[0] / 16), HexDigit(b[0] % 16)] + HexText(b[1..])
  {}

  lemma NoneSpelled()
    ensures HexText([]) == []
  {}

  lemma NoDashBefore(b: bytes, i: nat)
    requires |b| == 16 && i < 16 && !OpensGroup(i)
    ensures StillToSpell(b, i) == Digits(b, i)
  {}

  lemma GroupsSpelled(b: bytes)
    requires |b| == 16
    ensures StillToSpell(b, 0) == HexText(b[..4]) + ([DASH] + (HexText(b[4..6]) + ([DASH] + (HexText(b[6..8]) + ([DASH]
                               + (HexText(b[8..10]) + ([DASH] + HexText(b[10..]))))))))
  {
    hide HexText, Digits;
    GroupSpelled(b, 0, 4);
    GroupSpelled(b, 4, 6);
    GroupSpelled(b, 6, 8);
    GroupSpelled(b, 8, 10);
    GroupSpelled(b, 10, 16);
    assert b[0..4] == b[..4] && b[10..16] == b[10..];
    assert HexText(b[10..]) + [] == HexText(b[10..]);
  }

  // ---- messages ----

  /** An id that does not parse leaves sixteen zeros. */
  method PutId(b: array<byte>, at: nat, text: bytes)
    requires at + 16 <= b.Length
    modifies b
    ensures b[..at + 16] == old(b[..at]) + IdBytes(text)
    ensures b[at + 16..] == old(b[at + 16..])
  {
    hide UuidToWire;
    var id := ReadUuid(text);
    CopyInto(b, at, if id.Some? then id.value else Fill(16, 0));
  }

  /** The six fields before the id. */
  ghost function Lead(m: AgentMessage): bytes {
    BigEndian(HEADER_LENGTH, 4) + (PadType(m.messageType) + (BigEndian(m.schemaVersion, 4) + (BigEndian(m.createdMs, 8)
    + (BigEndian(Unsigned(m.sequence), 8) + BigEndian(m.flags, 8)))))
  }

  method WriteLead(out: array<byte>, m: AgentMessage)
    requires out.Length >= PAYLOAD_OFFSET
    modifies out
    ensures out[..UUID_OFFSET] == Lead(m)
  {
    hide BigEndian, PadType;
    ghost var f5 := BigEndian(m.flags, 8);
    ghost var f4 := BigEndian(Unsigned(m.sequence), 8) + f5;
    ghost var f3 := BigEndian(m.createdMs, 8) + f4;
    ghost var f2 := BigEndian(m.schemaVersion, 4) + f3;
    ghost var f1 := PadType(m.messageType) + f2;
    assert out[..0] == [];
    PutUnsigned(out, 0, HEADER_LENGTH, 4);
    assert out[..4] + f1 == Lead(m);
    PutType(out, TYPE_OFFSET, m.messageType);
    assert out[..36] + f2 == Lead(m);
    PutUnsigned(out, SCHEMA_OFFSET, m.schemaVersion, 4);
    assert out[..40] + f3 == Lead(m);
    PutUnsigned(out, CREATED_OFFSET, m.createdMs, 8);
    assert out[..48] + f4 == Lead(m);
    PutUnsigned(out, SEQUENCE_OFFSET, Unsigned(m.sequence), 8);
    assert out[..56] + f5 == Lead(m);
    PutUnsigned(out, FLAGS_OFFSET, m.flags, 8);
  }

  /** The writes in the order they are made; `digest` stands for the SHA-256 of the payload. */
  method Write(m: AgentMessage, digest: bytes) returns (out: array<byte>)
    requires |digest| == 32
    ensures out[..] == Serialize(m, digest)
  {
    hide BigEndian, PadType, IdBytes;
    ghost var f9 := BigEndian(|m.payload| % TWO32, 4) + m.payload;
    ghost var f8 := BigEndian(m.payloadType, 4) + f9;
    ghost var f7 := digest + f8;
    SerializeTiles(m, digest);
    hide Serialize, Lead;
    out := new byte[PAYLOAD_OFFSET + |m.payload|](_ => 0);
    WriteLead(out, m);
    PutId(out, UUID_OFFSET, m.messageId);
    assert out[..80] + f7 == Serialize(m, digest);
    CopyInto(out, DIGEST_OFFSET, digest);
    assert out[..112] + f8 == Serialize(m, digest);
    PutUnsigned(out, PAYLOAD_TYPE_OFFSET, m.payloadType, 4);
    assert out[..116] + f9 == Serialize(m, digest);
    PutUnsigned(out, PAYLOAD_LENGTH_OFFSET, |m.payload| % TWO32, 4);
    assert out[..120] + m.payload == Serialize(m, digest);
    CopyInto(out, PAYLOAD_OFFSET, m.payload);
    assert out[..] == out[..PAYLOAD_OFFSET + |m.payload|];
  }

  method Read(raw: bytes) returns (r: Decoded)
    ensures r == Deserialize(raw)
  {
    hide FromBigEndian, UuidFromWire, TrimType;
    if |raw| < PAYLOAD_OFFSET {
      return TooShort;
    }
    BigEndianEncodes(raw[0..4]);
    PowersOf256();
    var n: u32 := GetUnsigned(raw, 0, 4);
    if n != HEADER_LENGTH {
      if n < HEADER_LENGTH || |raw| < (n + 4) % TWO32 {
        return BadHeaderLength(n);
      }
    }
    var t := TrimmedType(raw[TYPE_OFFSET..TYPE_OFFSET + TYPE_LENGTH]);
    var schema := GetField(raw, SCHEMA_OFFSET, 4);
    var created := GetField(raw, CREATED_OFFSET, 8);
    var sequence := GetField(raw, SEQUENCE_OFFSET, 8);
    var flags := GetField(raw, FLAGS_OFFSET, 8);
    var id := SpellUuid(raw[UUID_OFFSET..UUID_OFFSET + 16]);
    var payloadType := GetField(raw, PAYLOAD_TYPE_OFFSET, 4);
    var at := n + 4;
    if at > |raw| {
      return OutOfRange;
    }
    r := Ok(AgentMessage(t, schema, created, Signed(sequence), flags, id, payloadType, raw[at..]));
  }

  method GetField(raw: bytes, at: nat, n: nat) returns (v: nat)
    requires at + n <= |raw|
    ensures v == Field(raw, at, n)
  {
    v := GetUnsigned(raw, at, n);
  }

  method TrimmedType(t: bytes) returns (r: bytes)
    ensures r == TrimType(t)
  {
    r := t;
    while r != [] && (r[|r| - 1] == 32 || r[|r| - 1] == 0)
      invariant TrimType(r) == TrimType(t)
    {
      r := r[..|r| - 1];
    }
  }

  lemma SerializeTiles(m: AgentMessage, digest: bytes)
    requires |digest| == 32
    ensures Serialize(m, digest)
         == Lead(m) + (IdBytes(m.messageId) + (digest
          + (BigEndian(m.payloadType, 4) + (BigEndian(|m.payload| % TWO32, 4) + m.payload))))
  {
    hide BigEndian, PadType, IdBytes;
  }
}
