/** The binary AgentMessage: a 116-byte header, a 4-byte payload length, and the payload. */
module Mgs {
  import opened Bytes

  datatype AgentMessage = AgentMessage(
    messageType: bytes,
    schemaVersion: u32,
    createdMs: u64,
    sequence: i64,
    flags: u64,
    messageId: bytes,
    payloadType: u32,
    payload: bytes)

  const HEADER_LENGTH := 116
  const TYPE_OFFSET := 4
  const TYPE_LENGTH := 32
  const SCHEMA_OFFSET := 36
  const CREATED_OFFSET := 40
  const SEQUENCE_OFFSET := 48
  const FLAGS_OFFSET := 56
  const UUID_OFFSET := 64
  const DIGEST_OFFSET := 80
  const PAYLOAD_TYPE_OFFSET := 112
  const PAYLOAD_LENGTH_OFFSET := 116
  const PAYLOAD_OFFSET := 120

  // ---- UUIDs: text, and halves swapped on the wire ----

  const DASH: byte := 45

  /** The bytes spelled by a text, dashes skipped between pairs, at most `want` of them; None on a bad digit. */
  function HexPairs(text: bytes, want: nat): Option<bytes>
    decreases |text|
  {
    if |text| < 2 || want == 0 then Some([])
    else if text[0] == DASH then HexPairs(text[1..], want)
    else
      var hi :- HexValue(text[0]);
      var lo :- HexValue(text[1]);
      var rest :- HexPairs(text[2..], want - 1);
      Some([hi * 16 + lo] + rest)
  }

  /** Least-significant half first. */
  function SwapHalves(b: bytes): (r: bytes)
    requires |b| == 16
    ensures |r| == 16
  {
    b[8..] + b[..8]
  }

  function UuidToWire(text: bytes): (r: Option<bytes>)
    ensures r.Some? ==> |r.value| == 16
  {
    var pairs :- HexPairs(text, 16);
    if |pairs| != 16 then None else Some(SwapHalves(pairs))
  }

  function HexText(b: bytes): bytes {
    if b == [] then [] else [HexDigit(b[0] / 16), HexDigit(b[0] % 16)] + HexText(b[1..])
  }

  function UuidFromWire(wire: bytes): bytes
    requires |wire| == 16
  {
    var b := SwapHalves(wire);
    HexText(b[..4]) + ([DASH] + (HexText(b[4..6]) + ([DASH] + (HexText(b[6..8]) + ([DASH] + (HexText(b[8..10])
    + ([DASH] + HexText(b[10..]))))))))
  }

  /** The canonical text form: lower-case digits in groups of 8, 4, 4, 4 and 12. */
  ghost predicate CanonicalUuid(text: bytes) {
    && |text| == 36
    && (forall i :: 0 <= i < 36 ==> if i == 8 || i == 13 || i == 18 || i == 23 then text[i] == DASH else IsLowerHex(text[i]))
  }

  predicate IsLowerHex(c: byte) {
    48 <= c <= 57 || 97 <= c <= 102
  }

  // ---- the message ----

  function PadType(t: bytes): (r: bytes)
    ensures |r| == TYPE_LENGTH
  {
    if |t| >= TYPE_LENGTH then t[..TYPE_LENGTH] else t + Fill(TYPE_LENGTH - |t|, 32)
  }

  /** Trailing spaces and NULs dropped. */
  function TrimType(t: bytes): bytes {
    if t != [] && (t[|t| - 1] == 32 || t[|t| - 1] == 0) then TrimType(t[..|t| - 1]) else t
  }

  function Unsigned(x: i64): u64 {
    if x >= 0 then x else x + TWO64
  }

  function Signed(x: u64): i64 {
    if x < TWO63 then x else x - TWO64
  }

  /** The 16 bytes written for an id: zeros when it does not parse. */
  function IdBytes(text: bytes): (r: bytes)
    ensures |r| == 16
  {
    match UuidToWire(text)
    case Some(w) => w
    case None => Fill(16, 0)
  }

  /** The header, field after field; `digest` stands for the SHA-256 of the payload. */
  function Header(m: AgentMessage, digest: bytes): (h: bytes)
    requires |digest| == 32
    ensures |h| == PAYLOAD_OFFSET
  {
    BigEndian(HEADER_LENGTH, 4) + (PadType(m.messageType) + (BigEndian(m.schemaVersion, 4) + (BigEndian(m.createdMs, 8)
    + (BigEndian(Unsigned(m.sequence), 8) + (BigEndian(m.flags, 8) + (IdBytes(m.messageId) + (digest
    + (BigEndian(m.payloadType, 4) + BigEndian(|m.payload| % TWO32, 4)))))))))
  }

  function Serialize(m: AgentMessage, digest: bytes): bytes
    requires |digest| == 32
  {
    Header(m, digest) + m.payload
  }

  /** A refusal, or the exception that a slice past the end raises. */
  datatype Decoded = Ok(m: AgentMessage) | TooShort | BadHeaderLength(n: u32) | OutOfRange

  function Field(raw: bytes, at: nat, n: nat): (r: nat)
    requires at + n <= |raw|
    ensures n == 4 ==> r < TWO32
    ensures n == 8 ==> r < TWO64
  {
    BigEndianEncodes(raw[at..at + n]);
    PowersOf256();
    FromBigEndian(raw[at..at + n])
  }

  function Deserialize(raw: bytes): Decoded {
    if |raw| < PAYLOAD_OFFSET then TooShort
    else
      var n := Field(raw, 0, 4);
      if n != HEADER_LENGTH && (n < HEADER_LENGTH || |raw| < (n + 4) % TWO32) then BadHeaderLength(n)
      else if n + 4 > |raw| then OutOfRange
      else Ok(AgentMessage(
          TrimType(raw[TYPE_OFFSET..TYPE_OFFSET + TYPE_LENGTH]),
          Field(raw, SCHEMA_OFFSET, 4),
          Field(raw, CREATED_OFFSET, 8),
          Signed(Field(raw, SEQUENCE_OFFSET, 8)),
          Field(raw, FLAGS_OFFSET, 8),
          UuidFromWire(raw[UUID_OFFSET..UUID_OFFSET + 16]),
          Field(raw, PAYLOAD_TYPE_OFFSET, 4),
          raw[n + 4..]))
  }
}
