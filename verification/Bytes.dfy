/** Bytes, fixed-width integers, big-endian fields and XOR, shared by the codecs. */
module Bytes {
  type byte = b: int | 0 <= b < 256
  type bytes = seq<byte>

  const TWO32 := 0x1_0000_0000
  const TWO63 := 0x8000_0000_0000_0000
  const TWO64 := 0x1_0000_0000_0000_0000

  type u32 = x: int | 0 <= x < TWO32
  type u64 = x: int | 0 <= x < TWO64
  type i64 = x: int | -TWO63 <= x < TWO63

  datatype Option<+T> = None | Some(value: T) {
    predicate IsFailure() {
      None?
    }

    function PropagateFailure<U>(): Option<U>
      requires None?
    {
      None
    }

    function Extract(): T
      requires Some?
    {
      value
    }
  }

  function Min(a: int, b: int): int {
    if a <= b then a else b
  }

  function Max(a: int, b: int): int {
    if a <= b then b else a
  }

  /** `n` copies of one byte. */
  function Fill(n: nat, b: byte): bytes {
    seq(n, _ => b)
  }

  /** The ASCII bytes of a text constant. */
  function Ascii(text: string): bytes
    requires forall i :: 0 <= i < |text| ==> text[i] as int < 128
  {
    seq(|text|, i requires 0 <= i < |text| => text[i] as int)
  }

  lemma ThreeParts(a: bytes, b: bytes, c: bytes)
    ensures (a + b + c)[|a|..] == b + c
    ensures (a + b + c)[|a|..|a| + |b|] == b
    ensures (a + b + c)[|a| + |b|..] == c
  {}

  // ---- blanks and digits ----

  /** `isspace` of the C locale. */
  predicate IsBlank(c: byte) {
    c == 32 || 9 <= c <= 13
  }

  function SkipBlanks(s: bytes): bytes {
    if s != [] && IsBlank(s[0]) then SkipBlanks(s[1..]) else s
  }

  /** Spaces, tabs, line feeds, vertical tabs, form feeds and carriage returns. */
  ghost predicate AllBlank(blanks: bytes) {
    forall c :: c in blanks ==> c == 32 || c == 9 || c == 10 || c == 11 || c == 12 || c == 13
  }

  lemma {:induction false} BlanksGo(blanks: bytes, rest: bytes)
    requires AllBlank(blanks)
    requires rest != [] && !IsBlank(rest[0])
    ensures SkipBlanks(blanks + rest) == rest
  {
    if blanks == [] {
      assert blanks + rest == rest;
    } else {
      assert blanks[0] in blanks && (blanks + rest)[1..] == blanks[1..] + rest;
      assert forall c :: c in blanks[1..] ==> c in blanks;
      BlanksGo(blanks[1..], rest);
    }
  }

  lemma {:induction false} BlanksFound(s: bytes) returns (blanks: bytes)
    ensures AllBlank(blanks) && s == blanks + SkipBlanks(s)
    ensures SkipBlanks(s) != [] ==> !IsBlank(SkipBlanks(s)[0])
  {
    if s != [] && IsBlank(s[0]) {
      var more := BlanksFound(s[1..]);
      blanks := [s[0]] + more;
      assert s == [s[0]] + s[1..];
    } else {
      blanks := [];
      assert [] + s == s;
    }
  }

  function HexDigit(d: nat): byte
    requires d < 16
  {
    if d < 10 then 48 + d else 87 + d
  }

  /** The value of a hex digit of either case. */
  function HexValue(c: byte): (d: Option<nat>)
    ensures d.Some? ==> d.value < 16
  {
    if 48 <= c <= 57 then Some(c - 48)
    else if 97 <= c <= 102 then Some(c - 87)
    else if 65 <= c <= 70 then Some(c - 55)
    else None
  }

  predicate IsDigit(c: byte) {
    48 <= c <= 57
  }

  /** How many of the first bytes are digits. */
  function DigitRun(s: bytes): (k: nat)
    ensures k <= |s|
  {
    if s != [] && IsDigit(s[0]) then 1 + DigitRun(s[1..]) else 0
  }

  function FromDigits(s: bytes): int {
    if s == [] then 0 else FromDigits(s[..|s| - 1]) * 10 + s[|s| - 1] - 48
  }

  lemma {:induction false} DigitRunStops(d: bytes, rest: bytes)
    requires forall i :: 0 <= i < |d| ==> IsDigit(d[i])
    requires rest == [] || !IsDigit(rest[0])
    ensures DigitRun(d + rest) == |d|
  {
    if d == [] {
      assert d + rest == rest;
    } else {
      assert (d + rest)[1..] == d[1..] + rest;
      DigitRunStops(d[1..], rest);
    }
  }

  // ---- big-endian integers ----

  function Pow256(k: nat): (p: nat)
    ensures p > 0
  {
    if k == 0 then 1 else 256 * Pow256(k - 1)
  }

  /** The low `width` bytes of v, most significant first. */
  function BigEndian(v: nat, width: nat): (s: bytes)
    ensures |s| == width
  {
    if width == 0 then [] else BigEndian(v / 256, width - 1) + [v % 256]
  }

  function FromBigEndian(s: bytes): nat {
    if s == [] then 0 else FromBigEndian(s[..|s| - 1]) * 256 + s[|s| - 1]
  }

  lemma {:induction false} BigEndianDecodes(v: nat, width: nat)
    requires v < Pow256(width)
    ensures FromBigEndian(BigEndian(v, width)) == v
  {
    if width > 0 {
      var s := BigEndian(v, width);
      assert s[..|s| - 1] == BigEndian(v / 256, width - 1);
      BigEndianDecodes(v / 256, width - 1);
    }
  }

  lemma {:induction false} BigEndianEncodes(s: bytes)
    ensures FromBigEndian(s) < Pow256(|s|)
    ensures BigEndian(FromBigEndian(s), |s|) == s
  {
    if s != [] {
      BigEndianEncodes(s[..|s| - 1]);
      assert FromBigEndian(s) / 256 == FromBigEndian(s[..|s| - 1]);
      assert s == s[..|s| - 1] + [s[|s| - 1]];
    }
  }

  /** Byte i, counted from the front, is v shifted right by 8 * (width - 1 - i) bits and masked. */
  lemma {:induction false} BigEndianByte(v: nat, width: nat, i: nat)
    requires i < width
    ensures BigEndian(v, width)[i] == v / Pow256(width - 1 - i) % 256
  {
    if i < width - 1 {
      BigEndianByte(v / 256, width - 1, i);
      DivDiv(v, Pow256(width - 2 - i));
    }
  }

  lemma DivDiv(v: nat, p: nat)
    requires p > 0
    ensures v / 256 / p == v / (256 * p)
  {
    var q, r := v / 256 / p, v / 256 % p;
    assert v / 256 == p * q + r;
    assert v == 256 * (p * q + r) + v % 256 == (256 * p) * q + (256 * r + v % 256);
    assert 0 <= 256 * r + v % 256 < 256 * p;
    QuotientUnique(v, 256 * p, q, 256 * r + v % 256);
  }

  lemma QuotientUnique(v: int, d: int, q: int, r: int)
    requires d > 0 && v == d * q + r && 0 <= r < d
    ensures v / d == q
  {
    var k := v / d - q;
    assert d * k == r - v % d;
    assert k >= 1 ==> d * k >= d;
    assert k <= -1 ==> d * k <= -d;
  }

  lemma PowersOf256()
    ensures Pow256(0) == 1 && Pow256(1) == 256 && Pow256(2) == 0x1_0000
    ensures Pow256(4) == TWO32 && Pow256(8) == TWO64
  {
    assert Pow256(1) == 256;
    assert Pow256(2) == 0x1_0000;
    assert Pow256(3) == 0x100_0000;
    assert Pow256(4) == TWO32;
    assert Pow256(5) == 256 * TWO32;
    assert Pow256(6) == 0x1_0000 * TWO32;
    assert Pow256(7) == 0x100_0000 * TWO32;
    assert Pow256(8) == TWO64;
  }

  // ---- XOR ----

  function Pow2(k: nat): (p: nat)
    ensures p > 0
  {
    if k == 0 then 1 else 2 * Pow2(k - 1)
  }

  /** Exclusive or of the low k bits, bit by bit from the least significant. */
  function XorBits(a: nat, b: nat, k: nat): (r: nat)
    ensures r < Pow2(k)
  {
    if k == 0 then 0
    else (if a % 2 == b % 2 then 0 else 1) + 2 * XorBits(a / 2, b / 2, k - 1)
  }

  function Xor(a: byte, b: byte): byte {
    assert Pow2(8) == 256 by { assert Pow2(4) == 16; }
    XorBits(a, b, 8)
  }

  lemma {:induction false} XorBitsUndoes(a: nat, b: nat, k: nat)
    requires a < Pow2(k)
    ensures XorBits(XorBits(a, b, k), b, k) == a
  {
    if k > 0 {
      XorBitsUndoes(a / 2, b / 2, k - 1);
    }
  }

  lemma XorUndoes(a: byte, b: byte)
    ensures Xor(Xor(a, b), b) == a
  {
    assert Pow2(8) == 256 by { assert Pow2(4) == 16; }
    XorBitsUndoes(a, b, 8);
  }

  /** Bit j of a number. */
  function Bit(a: nat, j: nat): nat {
    a / Pow2(j) % 2
  }

  lemma BitOfHalf(a: nat, j: nat)
    requires j > 0
    ensures Bit(a, j) == Bit(a / 2, j - 1)
  {
    var p := Pow2(j - 1);
    var q, r := a / 2 / p, a / 2 % p;
    assert a / 2 == p * q + r;
    assert a == 2 * (p * q + r) + a % 2 == (2 * p) * q + (2 * r + a % 2);
    QuotientUnique(a, 2 * p, q, 2 * r + a % 2);
  }

  /** Bit by bit, exclusive or is addition without carry. */
  lemma {:induction false} XorBitsByBit(a: nat, b: nat, k: nat, j: nat)
    requires j < k
    ensures Bit(XorBits(a, b, k), j) == (Bit(a, j) + Bit(b, j)) % 2
  {
    hide Bit;
    var x := XorBits(a, b, k);
    if j == 0 {
      LowestBits(x, a, b);
    } else {
      BitOfHalf(x, j);
      BitOfHalf(a, j);
      BitOfHalf(b, j);
      XorBitsByBit(a / 2, b / 2, k - 1, j - 1);
    }
  }

  lemma LowestBits(x: nat, a: nat, b: nat)
    ensures Bit(x, 0) == x % 2 && Bit(a, 0) == a % 2 && Bit(b, 0) == b % 2
  {}

  /** The j-th bit of the result is set exactly when one of the two is and the other is not. */
  lemma XorByBit(a: byte, b: byte, j: nat)
    requires j < 8
    ensures Bit(Xor(a, b), j) == (Bit(a, j) + Bit(b, j)) % 2
  {
    hide Bit, XorBits;
    XorBitsByBit(a, b, 8, j);
  }
}
