/** RFC 6455 frames: the sender `make_frame`, the incremental parser `parse_frame`, and the wire
    grammar of section 5.2 that both are measured against. */
module Frames {
  import opened Bytes

  const MAX_FRAME_SIZE := 1024 * 1024

  // ---- the wire grammar (RFC 6455 sections 5.2 and 5.3) ----

  /** The three ways to spell a payload length: 7 bits, 7+16 bits, 7+64 bits. */
  datatype LengthForm = Short | Medium | Long

  datatype Wire = Wire(fin: bool, opcode: byte, form: LengthForm, mask: Option<bytes>, payload: bytes)

  ghost predicate Fits(w: Wire) {
    && w.opcode < 16
    && (w.mask.Some? ==> |w.mask.value| == 4)
    && match w.form {
      case Short => |w.payload| < 126
      case Medium => |w.payload| < 0x1_0000
      case Long => |w.payload| < TWO64
    }
  }

  function MinimalForm(n: nat): LengthForm {
    if n < 126 then Short else if n <= 0xFFFF then Medium else Long
  }

  function ApplyMask(payload: bytes, key: bytes): (r: bytes)
    requires |key| == 4
    ensures |r| == |payload|
  {
    seq(|payload|, i requires 0 <= i < |payload| => Xor(payload[i], key[i % 4]))
  }

  function LengthField(form: LengthForm, masked: bool, n: nat): bytes
    requires form.Short? ==> n < 126
  {
    var m := if masked then 128 else 0;
    match form
    case Short => [m + n]
    case Medium => [m + 126] + BigEndian(n, 2)
    case Long => [m + 127] + BigEndian(n, 8)
  }

  ghost function Header(w: Wire): (h: bytes)
    requires Fits(w)
  {
    [(if w.fin then 128 else 0) + w.opcode] + LengthField(w.form, w.mask.Some?, |w.payload|)
  }

  function MaskAndPayload(mask: Option<bytes>, payload: bytes): bytes
    requires mask.Some? ==> |mask.value| == 4
  {
    match mask
    case None => payload
    case Some(key) => key + ApplyMask(payload, key)
  }

  ghost function Encode(w: Wire): bytes
    requires Fits(w)
  {
    Header(w) + MaskAndPayload(w.mask, w.payload)
  }

  lemma {:induction false} MaskUndoes(payload: bytes, key: bytes)
    requires |key| == 4
    ensures ApplyMask(ApplyMask(payload, key), key) == payload
  {
    forall i | 0 <= i < |payload|
      ensures ApplyMask(ApplyMask(payload, key), key)[i] == payload[i]
    {
      XorUndoes(payload[i], key[i % 4]);
    }
  }

  /** Where the mask key stands, or the payload when there is none. */
  function FormEnd(form: LengthForm): nat {
    match form
    case Short => 2
    case Medium => 4
    case Long => 10
  }

  /** The bytes of a header, one by one: FIN and opcode; the mask bit and the length; its extension in network order. */
  ghost predicate LaidOut(h: bytes, w: Wire) {
    var n := |w.payload|;
    && |h| >= FormEnd(w.form)
    && h[0] == (if w.fin then 128 else 0) + w.opcode && (w.mask.Some? <==> h[1] >= 128)
    && (w.form.Short? ==> h[1] % 128 == n)
    && (w.form.Medium? ==> h[1] % 128 == 126 && h[2] as int * 256 + h[3] as int == n)
    && (w.form.Long? ==> h[1] % 128 == 127 && forall k :: 2 <= k < 10 ==> h[k] == n / Pow256(9 - k) % 256)
  }

  /** The eight length bytes, high byte first. */
  lemma LengthBytesInOrder(n: nat, h: bytes)
    requires |h| == 10 && h[2..] == BigEndian(n, 8)
    ensures forall k :: 2 <= k < 10 ==> h[k] == n / Pow256(9 - k) % 256
  {
    forall k | 2 <= k < 10 ensures h[k] == n / Pow256(9 - k) % 256 {
      BigEndianByte(n, 8, k - 2);
      assert h[k] == h[2..][k - 2];
    }
  }

  lemma HeaderIsLaidOut(w: Wire)
    requires Fits(w)
    ensures LaidOut(Header(w), w) && |Header(w)| == FormEnd(w.form)
  {
    hide BigEndian, Pow256;
    var n := |w.payload|;
    match w.form {
      case Short =>
      case Medium => TwoLengthBytes(n);
      case Long => LengthBytesInOrder(n, Header(w));
    }
  }

  lemma LaidOutInFront(h: bytes, more: bytes, w: Wire)
    requires LaidOut(h, w)
    ensures LaidOut(h + more, w)
  {
    hide Pow256;
    assert forall k :: 0 <= k < |h| ==> (h + more)[k] == h[k];
  }

  /** A frame is such a header, the mask key if there is one, and as many bytes as the payload has. */
  lemma HeaderLayout(w: Wire)
    requires Fits(w)
    ensures var f, at := Encode(w), FormEnd(w.form);
      && LaidOut(f, w) && |f| == at + (if w.mask.Some? then 4 else 0) + |w.payload|
      && (w.mask.Some? ==> f[at..at + 4] == w.mask.value)
  {
    HeaderIsLaidOut(w);
    hide Header, ApplyMask;
    LaidOutInFront(Header(w), MaskAndPayload(w.mask, w.payload), w);
  }

  /** The length bytes `make_frame` writes, low byte last. */
  lemma TwoLengthBytes(len: nat)
    ensures BigEndian(len, 2) == [len / 256 % 256, len % 256]
  {
    assert BigEndian(len / 256, 1) == [] + [len / 256 % 256];
  }

  /** Each bit of the payload, added without carry to its bit of the mask key. */
  ghost predicate MaskedBits(sent: bytes, payload: bytes, key: bytes)
    requires |sent| >= |payload| && |key| == 4
  {
    forall i, j :: 0 <= i < |payload| && 0 <= j < 8 ==>
      Bit(sent[|sent| - |payload| + i], j) == (Bit(payload[i], j) + Bit(key[i % 4], j)) % 2
  }

  /** And then the payload, masked or as it is. */
  lemma PayloadLayout(w: Wire)
    requires Fits(w)
    ensures var f, n := Encode(w), |w.payload|;
      && |f| >= n
      && (w.mask == None ==> f[|f| - n..] == w.payload)
      && (w.mask.Some? ==> MaskedBits(f, w.payload, w.mask.value))
  {
    hide Xor, Bit;
    var f, n := Encode(w), |w.payload|;
    if w.mask.Some? {
      var key := w.mask.value;
      assert f[|f| - n..] == ApplyMask(w.payload, key);
      forall i, j | 0 <= i < n && 0 <= j < 8
        ensures Bit(f[|f| - n + i], j) == (Bit(w.payload[i], j) + Bit(key[i % 4], j)) % 2
      {
        assert f[|f| - n + i] == f[|f| - n..][i] == Xor(w.payload[i], key[i % 4]);
        XorByBit(w.payload[i], key[i % 4], j);
      }
    }
  }

  // ---- parsing ----

  datatype FrameError = ReservedBits | TooLarge(length: nat)

  datatype Parsed =
    | NeedMore
    | Malformed(error: FrameError)
    | Frame(fin: bool, opcode: byte, payload: bytes, rest: bytes)

  /** Where the length field ends, told from its first byte. */
  function LengthEnd(b1: byte): nat {
    if b1 % 128 == 126 then 4 else if b1 % 128 == 127 then 10 else 2
  }

  function DeclaredLength(buf: bytes): nat
    requires |buf| >= 2 && |buf| >= LengthEnd(buf[1])
  {
    if LengthEnd(buf[1]) == 2 then buf[1] % 128 else FromBigEndian(buf[2..LengthEnd(buf[1])])
  }

  /** The mask key and the payload, once the length `len` ending at `at` has been accepted. */
  function ParseRest(buf: bytes, at: nat, len: nat): Parsed
    requires 2 <= at <= |buf|
  {
    var masked := buf[1] >= 128;
    var dataAt := if masked then at + 4 else at;
    if |buf| < dataAt + len then NeedMore
    else
      var raw := buf[dataAt..dataAt + len];
      Frame(buf[0] >= 128, buf[0] % 16, if masked then ApplyMask(raw, buf[at..at + 4]) else raw,
            buf[dataAt + len..])
  }

  function ParseFrame(buf: bytes): Parsed {
    if |buf| < 2 then NeedMore
    else if buf[0] / 16 % 8 != 0 then Malformed(ReservedBits)
    else if |buf| < LengthEnd(buf[1]) then NeedMore
    else if DeclaredLength(buf) > MAX_FRAME_SIZE then Malformed(TooLarge(DeclaredLength(buf)))
    else ParseRest(buf, LengthEnd(buf[1]), DeclaredLength(buf))
  }

  /** The header written by the grammar reads back as the length it declares. */
  lemma HeaderReads(w: Wire, buf: bytes)
    requires Fits(w) && Header(w) <= buf
    ensures |buf| >= 2 && buf[0] == (if w.fin then 128 else 0) + w.opcode
    ensures (buf[1] >= 128) == w.mask.Some?
    ensures LengthEnd(buf[1]) == |Header(w)|
    ensures DeclaredLength(buf) == |w.payload|
  {
    PowersOf256();
    hide BigEndian, FromBigEndian, Pow256;
    var n := |w.payload|;
    match w.form {
      case Short =>
      case Medium =>
        BigEndianDecodes(n, 2);
        assert buf[2..4] == Header(w)[2..4] == BigEndian(n, 2);
      case Long =>
        BigEndianDecodes(n, 8);
        assert buf[2..10] == Header(w)[2..10] == BigEndian(n, 8);
    }
  }

  /** After any header, the mask key and the masked payload read back, and `rest` stays. */
  lemma RestReads(head: bytes, mask: Option<bytes>, payload: bytes, rest: bytes)
    requires |head| >= 2 && (mask.Some? ==> |mask.value| == 4) && mask.Some? == (head[1] >= 128)
    ensures ParseRest(head + MaskAndPayload(mask, payload) + rest, |head|, |payload|)
         == Frame(head[0] >= 128, head[0] % 16, payload, rest)
  {
    hide Xor;
    var at := |head|;
    var buf := head + MaskAndPayload(mask, payload) + rest;
    match mask {
      case None =>
        assert buf[at..at + |payload|] == payload;
      case Some(key) =>
        assert buf[at..at + 4] == key;
        assert buf[at + 4..at + 4 + |payload|] == ApplyMask(payload, key);
        MaskUndoes(payload, key);
    }
  }

  /** Every frame of the grammar up to the size limit, in any of the three length forms, masked or not,
      parses to its own contents and leaves exactly what follows it. */
  lemma ParsesEveryFrame(w: Wire, rest: bytes)
    requires Fits(w) && |w.payload| <= 1024 * 1024
    ensures ParseFrame(Encode(w) + rest) == Frame(w.fin, w.opcode, w.payload, rest)
  {
    HeaderReads(w, Encode(w) + rest);
    hide ParseRest, DeclaredLength, LengthField, MaskAndPayload, Fits;
    assert Encode(w) + rest == Header(w) + MaskAndPayload(w.mask, w.payload) + rest;
    RestReads(Header(w), w.mask, w.payload, rest);
  }

  /** The bytes before the payload length's end are a header of the grammar. */
  lemma HeaderIsRead(buf: bytes, w: Wire)
    requires |buf| >= 2 && buf[0] / 16 % 8 == 0 && |buf| >= LengthEnd(buf[1])
    requires w.fin == (buf[0] >= 128) && w.opcode == buf[0] % 16 && w.mask.Some? == (buf[1] >= 128)
    requires w.mask.Some? ==> |w.mask.value| == 4
    requires |w.payload| == DeclaredLength(buf)
    requires w.form == match LengthEnd(buf[1]) { case 2 => Short case 4 => Medium case _ => Long }
    ensures Fits(w) && Header(w) == buf[..LengthEnd(buf[1])]
  {
    PowersOf256();
    hide BigEndian, FromBigEndian, Pow256;
    BigEndianEncodes(buf[2..LengthEnd(buf[1])]);
    assert buf[..LengthEnd(buf[1])] == [buf[0], buf[1]] + buf[2..LengthEnd(buf[1])];
  }

  lemma RestIsRead(buf: bytes, at: nat, len: nat)
    requires 2 <= at <= |buf| && ParseRest(buf, at, len).Frame?
    ensures var f := ParseRest(buf, at, len);
            var mask := if buf[1] >= 128 then Some(buf[at..at + 4]) else None;
            |f.rest| <= |buf| - at
            && buf[at..|buf| - |f.rest|] == MaskAndPayload(mask, f.payload)
            && buf[|buf| - |f.rest|..] == f.rest && |f.payload| == len
  {
    if buf[1] >= 128 {
      MaskUndoes(buf[at + 4..at + 4 + len], buf[at..at + 4]);
    }
  }

  lemma SplitAt(s: bytes, i: nat, j: nat)
    requires i <= j <= |s|
    ensures s == s[..i] + s[i..j] + s[j..]
  {}

  /** What the parser accepts is a frame of the grammar: nothing else gets through. */
  lemma ParsesOnlyFrames(buf: bytes) returns (w: Wire)
    requires ParseFrame(buf).Frame?
    ensures Fits(w) && |w.payload| <= MAX_FRAME_SIZE
    ensures var f := ParseFrame(buf); buf == Encode(w) + f.rest && f == Frame(w.fin, w.opcode, w.payload, f.rest)
  {
    var f := ParseFrame(buf);
    var at := LengthEnd(buf[1]);
    var form := if at == 2 then Short else if at == 4 then Medium else Long;
    var mask := if buf[1] >= 128 then Some(buf[at..at + 4]) else None;
    w := Wire(f.fin, f.opcode, form, mask, f.payload);
    HeaderIsRead(buf, w);
    RestIsRead(buf, at, DeclaredLength(buf));
    SplitAt(buf, at, |buf| - |f.rest|);
  }

  /** A frame still arriving is never mistaken for anything: every proper prefix asks for more bytes. */
  lemma ProperPrefixNeedsMore(w: Wire, k: nat)
    requires Fits(w) && |w.payload| <= MAX_FRAME_SIZE && k < |Encode(w)|
    ensures ParseFrame(Encode(w)[..k]) == NeedMore
  {
    var all := Encode(w);
    HeaderReads(w, all);
    var buf := all[..k];
    if k >= |Header(w)| {
      HeaderReads(w, buf);
    }
  }

  /** An oversized frame is refused as soon as its header is there, whatever follows. */
  lemma OversizedFrameRefused(w: Wire, rest: bytes)
    requires Fits(w) && |w.payload| > 1024 * 1024
    ensures ParseFrame(Header(w) + rest) == Malformed(TooLarge(|w.payload|))
  {
    HeaderReads(w, Header(w) + rest);
  }

  /** The header stays what it is when bytes arrive behind it. */
  lemma HeaderIsStable(buf: bytes, more: bytes)
    requires |buf| >= 2 && |buf| >= LengthEnd(buf[1])
    ensures DeclaredLength(buf + more) == DeclaredLength(buf)
  {
    hide FromBigEndian;
    assert (buf + more)[2..LengthEnd(buf[1])] == buf[2..LengthEnd(buf[1])];
  }

  lemma SlicesAreStable(buf: bytes, more: bytes, i: nat, j: nat)
    requires i <= j <= |buf|
    ensures (buf + more)[i..j] == buf[i..j] && (buf + more)[j..] == buf[j..] + more
  {}

  /** And so does the payload. */
  lemma RestIsStable(buf: bytes, more: bytes, at: nat, len: nat)
    requires 2 <= at <= |buf|
    ensures var f := ParseRest(buf, at, len);
            f.Frame? ==> ParseRest(buf + more, at, len) == f.(rest := f.rest + more) && |f.rest| < |buf|
    ensures !ParseRest(buf, at, len).Malformed?
  {
    hide Xor, ApplyMask;
    assert (buf + more)[0] == buf[0] && (buf + more)[1] == buf[1];
    var dataAt := if buf[1] >= 128 then at + 4 else at;
    if dataAt + len <= |buf| {
      SlicesAreStable(buf, more, at, dataAt);
      SlicesAreStable(buf, more, dataAt, dataAt + len);
    }
  }

  /** A decision, once made, does not change when more bytes arrive. */
  lemma DecisionIsStable(buf: bytes, more: bytes)
    ensures ParseFrame(buf).Malformed? ==> ParseFrame(buf + more) == ParseFrame(buf)
    ensures var f := ParseFrame(buf);
            f.Frame? ==> ParseFrame(buf + more) == f.(rest := f.rest + more) && |f.rest| < |buf|
  {
    hide ParseRest, DeclaredLength;
    if |buf| >= 2 && |buf| >= LengthEnd(buf[1]) {
      HeaderIsStable(buf, more);
      RestIsStable(buf, more, LengthEnd(buf[1]), DeclaredLength(buf));
    }
  }

  // ---- the code ----

  /** The masking loop shared by sender and parser: XOR the key over everything from `from` on. */
  method MaskFrom(data: bytes, from: nat, mask: bytes) returns (out: bytes)
    requires from <= |data| && |mask| == 4
    ensures out == data[..from] + ApplyMask(data[from..], mask)
  {
    out := data;
    var i := 0;
    ghost var masked := ApplyMask(data[from..], mask);
    while i < |data| - from
      invariant 0 <= i <= |data| - from && |out| == |data|
      invariant out == data[..from] + masked[..i] + data[from + i..]
    {
      out := out[from + i := Xor(out[from + i], mask[i % 4])];
      i := i + 1;
    }
  }

  /** The second byte (with the MASK bit) and the extended length. */
  method LengthBytes(len: nat) returns (out: bytes)
    requires len < TWO64
    ensures out == LengthField(MinimalForm(len), true, len)
  {
    if len < 126 {
      out := [128 + len];
    } else if len <= 0xFFFF {
      out := [128 + 126];
      out := out + [len / 256 % 256];
      out := out + [len % 256];
      TwoLengthBytes(len);
    } else {
      out := [128 + 127];
      var i := 0;
      while i < 8
        invariant 0 <= i <= 8
        invariant out == [128 + 127] + BigEndian(len, 8)[..i]
      {
        BigEndianByte(len, 8, i);
        out := out + [len / Pow256(7 - i) % 256];
        i := i + 1;
      }
    }
  }

  method MakeFrame(opcode: byte, payload: bytes, mask: bytes) returns (out: bytes)
    requires |mask| == 4 && |payload| < TWO64
    ensures out == Encode(Wire(true, opcode % 16, MinimalForm(|payload|), Some(mask), payload))
    ensures |out| == |payload| + (if |payload| < 126 then 6 else if |payload| < 0x1_0000 then 8 else 14)
    ensures MaskedBits(out, payload, mask)
  {
    PayloadLayout(Wire(true, opcode % 16, MinimalForm(|payload|), Some(mask), payload));
    HeaderLayout(Wire(true, opcode % 16, MinimalForm(|payload|), Some(mask), payload));
    hide MaskedBits, LaidOut, MaskAndPayload, Header;
    out := [128 + opcode % 16];
    var length := LengthBytes(|payload|);
    out := out + length + mask;
    var dataAt := |out|;
    ghost var head := out;
    out := out + payload;
    assert out[..dataAt] == head && out[dataAt..] == payload;
    out := MaskFrom(out, dataAt, mask);
  }

  /** Reads the length field; None when it has not all arrived. */
  method ReadLength(buf: bytes) returns (length: Option<(nat, nat)>)
    requires |buf| >= 2
    ensures length == if |buf| < LengthEnd(buf[1]) then None else Some((DeclaredLength(buf), LengthEnd(buf[1])))
  {
    var len: nat := buf[1] % 128;
    var at := 2;
    length := None;
    if len == 126 {
      if |buf| < 4 {
        return;
      }
      var hi: nat := buf[2];
      len := hi * 256 + buf[3];
      at := 4;
      assert buf[2..4] == [buf[2], buf[3]];
      assert FromBigEndian([buf[2]]) == buf[2] && [buf[2], buf[3]][..1] == [buf[2]];
    } else if len == 127 {
      if |buf| < 10 {
        return;
      }
      len := 0;
      var i := 0;
      while i < 8
        invariant 0 <= i <= 8
        invariant len == FromBigEndian(buf[2..2 + i])
      {
        assert buf[2..3 + i][..i] == buf[2..2 + i];
        len := len * 256 + buf[2 + i];
        i := i + 1;
      }
      at := 10;
    }
    length := Some((len, at));
  }

  /** The tail of `parse_frame`: mask key, payload, erase. */
  method TakePayload(buf: bytes, at: nat, len: nat) returns (rc: int, buf': bytes, payload: bytes)
    requires 2 <= at <= |buf|
    ensures rc == 0 || rc == 1
    ensures rc == 0 ==> buf' == buf && ParseRest(buf, at, len) == NeedMore
    ensures rc == 1 ==> ParseRest(buf, at, len) == Frame(buf[0] >= 128, buf[0] % 16, payload, buf')
  {
    hide Xor, ApplyMask;
    rc, buf', payload := 0, buf, [];
    var dataAt := at;
    var mask := [0, 0, 0, 0];
    var masked := buf[1] >= 128;
    if masked {
      if |buf| < at + 4 {
        return;
      }
      mask := buf[at..at + 4];
      dataAt := at + 4;
    }
    if |buf| < dataAt + len {
      return;
    }
    payload := buf[dataAt..dataAt + len];
    if masked {
      payload := MaskFrom(payload, 0, mask);
      assert buf[dataAt..dataAt + len][0..] == buf[dataAt..dataAt + len];
    }
    buf' := buf[dataAt + len..];
    rc := 1;
  }

  /** Return code 1, 0 or -1; a frame is erased from the front of the buffer, and 0 or -1 leaves it alone. */
  method ParseFrameInPlace(buf: bytes)
    returns (rc: int, buf': bytes, fin: bool, opcode: byte, payload: bytes, err: Option<FrameError>)
    ensures -1 <= rc <= 1 && (rc == -1 <==> err.Some?)
    ensures rc != 1 ==> buf' == buf
    ensures ParseFrame(buf) == if rc == 1 then Frame(fin, opcode, payload, buf') else
                               if rc == 0 then NeedMore else Malformed(err.value)
  {
    rc, buf', fin, opcode, payload, err := 0, buf, false, 0, [], None;
    if |buf| < 2 {
      return;
    }
    fin := buf[0] >= 128;
    if buf[0] / 16 % 8 != 0 {
      err := Some(ReservedBits);
      rc := -1;
      return;
    }
    opcode := buf[0] % 16;
    var length := ReadLength(buf);
    if length == None {
      return;
    }
    var (len, at) := length.value;
    if len > MAX_FRAME_SIZE {
      err := Some(TooLarge(len));
      rc := -1;
      return;
    }
    rc, buf', payload := TakePayload(buf, at, len);
  }
}
