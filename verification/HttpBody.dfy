/** HTTP/1.1 bodies in one shot: what a whole byte stream delivers under each framing, and how that relates to the
    chunked coding of RFC 9112. */
module HttpBody {
  import opened Bytes

  // ---- strtoul ----

  predicate IsDigitIn(c: byte, base: nat) {
    HexValue(c).Some? && HexValue(c).value < base
  }

  /** The value of the leading digits, shifted into `acc`. */
  function Digits(s: bytes, base: nat, acc: nat): nat
    decreases |s|
  {
    if s != [] && IsDigitIn(s[0], base) then Digits(s[1..], base, acc * base + HexValue(s[0]).value) else acc
  }

  function SkipPrefix(s: bytes, base: nat): bytes {
    if base == 16 && |s| > 2 && s[0] == 48 && (s[1] == 120 || s[1] == 88) && HexValue(s[2]).Some? then s[2..] else s
  }

  /** `strtoul` on a 64-bit machine: saturating, with a sign that negates modulo 2^64. */
  function Strtoul(text: bytes, base: nat): u64 {
    var t := SkipBlanks(text);
    var signed := t != [] && (t[0] == 43 || t[0] == 45);
    var v := Digits(SkipPrefix(if signed then t[1..] else t, base), base, 0);
    if v >= TWO64 then TWO64 - 1 else if signed && t[0] == 45 then (TWO64 - v) % TWO64 else v
  }

  /** A numeral in positional notation. */
  function Positional(digits: bytes, base: nat): nat
    requires forall i :: 0 <= i < |digits| ==> HexValue(digits[i]).Some?
  {
    if digits == [] then 0
    else Positional(digits[..|digits| - 1], base) * base + HexValue(digits[|digits| - 1]).value
  }

  lemma {:induction false} PositionalFirst(digits: bytes, base: nat, acc: nat)
    requires forall i :: 0 <= i < |digits| ==> HexValue(digits[i]).Some? && HexValue(digits[i]).value < base
    ensures Digits(digits, base, acc) == acc * Power(base, |digits|) + Positional(digits, base)
    decreases |digits|
  {
    hide HexValue;
    if digits != [] {
      var init, last := digits[..|digits| - 1], digits[|digits| - 1];
      PositionalFirst(init, base, acc);
      DigitsLast(init, last, base, acc);
      assert digits == init + [last];
      Horner(acc, Power(base, |init|), base, Positional(init, base), HexValue(last).value);
    }
  }

  function Power(base: nat, k: nat): nat {
    if k == 0 then 1 else Power(base, k - 1) * base
  }

  lemma Horner(acc: nat, p: nat, base: nat, value: nat, last: nat)
    ensures (acc * p + value) * base + last == acc * (p * base) + (value * base + last)
  {}

  lemma {:induction false} DigitsLast(init: bytes, last: byte, base: nat, acc: nat)
    requires forall i :: 0 <= i < |init| ==> HexValue(init[i]).Some? && HexValue(init[i]).value < base
    requires HexValue(last).Some? && HexValue(last).value < base
    ensures Digits(init + [last], base, acc) == Digits(init, base, acc) * base + HexValue(last).value
    decreases |init|
  {
    hide HexValue;
    var all := init + [last];
    if init == [] {
      assert all == [last] && all[1..] == [];
      assert Digits(all[1..], base, acc * base + HexValue(last).value) == acc * base + HexValue(last).value;
    } else {
      assert all[1..] == init[1..] + [last];
      DigitsLast(init[1..], last, base, acc * base + HexValue(init[0]).value);
    }
  }

  /** Not a digit in the base. */
  predicate Stops(rest: bytes, base: nat) {
    rest == [] || HexValue(rest[0]).None? || HexValue(rest[0]).value >= base
  }

  lemma {:induction false} DigitsEnd(digits: bytes, rest: bytes, base: nat, acc: nat)
    requires forall i :: 0 <= i < |digits| ==> HexValue(digits[i]).Some? && HexValue(digits[i]).value < base
    requires Stops(rest, base)
    ensures Digits(digits + rest, base, acc) == Digits(digits, base, acc)
    decreases |digits|
  {
    hide HexValue;
    if digits == [] {
      assert digits + rest == rest;
    } else {
      assert (digits + rest)[1..] == digits[1..] + rest;
      DigitsEnd(digits[1..], rest, base, acc * base + HexValue(digits[0]).value);
    }
  }

  /** The parts of a numeral that `strtoul` reads: blanks, a sign, in base 16 a prefix, and digits. */
  datatype Numeral = Numeral(blanks: bytes, sign: bytes, prefix: bytes, digits: bytes)

  ghost predicate IsNumeral(n: Numeral, base: nat) {
    && AllBlank(n.blanks)
    && (n.sign == [] || n.sign == Ascii("+") || n.sign == Ascii("-"))
    && (n.prefix == [] || (base == 16 && (n.prefix == Ascii("0x") || n.prefix == Ascii("0X"))))
    && n.digits != []
    && forall i :: 0 <= i < |n.digits| ==> HexValue(n.digits[i]).Some? && HexValue(n.digits[i]).value < base
  }

  /** It saturates at 64 bits, and a minus sign negates modulo 2^64. */
  function Clamped(negative: bool, v: nat): u64 {
    if v > 0xFFFF_FFFF_FFFF_FFFF then 0xFFFF_FFFF_FFFF_FFFF
    else if negative && v > 0 then 0x1_0000_0000_0000_0000 - v else v
  }

  /** `strtoul` on every numeral, whatever follows it: a lone 0 before an x is left to the prefix. */
  lemma StrtoulReads(n: Numeral, base: nat, rest: bytes)
    requires IsNumeral(n, base) && Stops(rest, base) && 2 <= base <= 16
    requires n.prefix == [] && n.digits == [48] && rest != [] ==> rest[0] != 120 && rest[0] != 88
    ensures Strtoul(n.blanks + (n.sign + (n.prefix + (n.digits + rest))), base)
         == Clamped(n.sign == Ascii("-"), Positional(n.digits, base))
  {
    hide Strtoul, Digits, Positional, SkipBlanks, SkipPrefix, Clamped, Stops, HexValue;
    SignAndPrefix();
    PrefixGoes(n, base, rest);
    DigitsEnd(n.digits, rest, base, 0);
    PositionalFirst(n.digits, base, 0);
    var body := n.prefix + (n.digits + rest);
    BodyStarts(n, base, rest);
    StrtoulBehind(n.blanks, n.sign, body, base, Positional(n.digits, base));
  }

  lemma BodyStarts(n: Numeral, base: nat, rest: bytes)
    requires IsNumeral(n, base)
    ensures var body := n.prefix + (n.digits + rest);
      body != [] && !IsBlank(body[0]) && body[0] != 43 && body[0] != 45
  {
    SignAndPrefix();
    hide Ascii;
    var body := n.prefix + (n.digits + rest);
    assert body[0] == if n.prefix != [] then n.prefix[0] else n.digits[0];
  }

  /** Blanks and a sign in front of what has a value. */
  lemma StrtoulBehind(blanks: bytes, sign: bytes, body: bytes, base: nat, v: nat)
    requires AllBlank(blanks)
    requires sign == [] || sign == [43] || sign == [45]
    requires body != [] && !IsBlank(body[0]) && body[0] != 43 && body[0] != 45
    requires Digits(SkipPrefix(body, base), base, 0) == v
    ensures Strtoul(blanks + (sign + body), base) == Clamped(sign == [45], v)
  {
    hide Digits, SkipBlanks, SkipPrefix;
    var signed := sign + body;
    assert signed[0] == if sign != [] then sign[0] else body[0];
    assert sign == [] ==> signed == body;
    assert sign != [] ==> signed[1..] == body;
    BlanksGo(blanks, signed);
  }

  lemma SignAndPrefix()
    ensures Ascii("+") == [43] && Ascii("-") == [45] && Ascii("0x") == [48, 120] && Ascii("0X") == [48, 88]
  {}

  lemma PrefixGoes(n: Numeral, base: nat, rest: bytes)
    requires IsNumeral(n, base)
    requires n.prefix == [] && n.digits == [48] && rest != [] ==> rest[0] != 120 && rest[0] != 88
    ensures SkipPrefix(n.prefix + (n.digits + rest), base) == n.digits + rest
  {
    SignAndPrefix();
    hide Ascii;
    var s := n.prefix + (n.digits + rest);
    if n.prefix == [] {
      assert s == n.digits + rest && s[0] == n.digits[0];
      if |n.digits| > 1 {
        assert s[1] == n.digits[1];
      } else if |s| > 1 {
        assert s[1] == rest[0];
      }
    } else {
      assert s[2] == n.digits[0] && s[2..] == n.digits + rest;
    }
  }

  // ---- one shot ----

  /** How the stream ends: closed by the peer, or a read that fails. */
  datatype Ending = Eof | Broken(error: string)

  datatype Framing = Chunked | Length(want: u64) | ToEof

  /** The bytes delivered, how many were used up, and why it stopped if it did not complete. */
  datatype Shot = Shot(delivered: bytes, used: nat, error: Option<string>)

  function Truncated(ending: Ending, what: string): Option<string> {
    Some(match ending
         case Eof => what
         case Broken(error) => if error == "" then "read timeout" else error)
  }

  /** Where the first CRLF starts. */
  function FindCrlf(s: bytes): (r: Option<nat>)
    ensures r.Some? ==> r.value + 2 <= |s|
  {
    if |s| < 2 then None
    else if s[0] == 13 && s[1] == 10 then Some(0)
    else
      var later :- FindCrlf(s[1..]);
      Some(later + 1)
  }

  function Ahead(head: bytes, n: nat, shot: Shot): Shot {
    Shot(head + shot.delivered, n + shot.used, shot.error)
  }

  /** One chunk with data and the bytes it used up, or the end of the reading. */
  datatype Chunk = Chunk(data: bytes, n: nat) | Last(shot: Shot)

  /** A size line, that many bytes, and two more bytes; a size of zero ends the body. */
  function ReadChunk(s: bytes, ending: Ending): (c: Chunk)
    ensures c.Chunk? ==> 0 < c.n <= |s|
  {
    match FindCrlf(s)
    case None => Last(Shot([], |s|, Truncated(ending, "truncated chunked body")))
    case Some(nl) =>
      var size := Strtoul(s[..nl], 16);
      if size == 0 then Last(Shot([], nl + 2, None)) else ReadData(s[nl + 2..], size, nl + 2, ending)
  }

  /** The data behind a size line that used up `line` bytes. */
  function ReadData(rest: bytes, size: nat, line: nat, ending: Ending): (c: Chunk)
    ensures c.Chunk? ==> c.n == line + size + 2 <= line + |rest|
  {
    if |rest| < size then Last(Shot(rest, line + |rest|, Truncated(ending, "truncated chunk")))
    else if |rest| < size + 2 then Last(Shot(rest[..size], line + |rest|, Truncated(ending, "truncated chunk")))
    else Chunk(rest[..size], line + size + 2)
  }

  function ReadChunks(s: bytes, ending: Ending): Shot
    decreases |s|
  {
    match ReadChunk(s, ending)
    case Last(shot) => shot
    case Chunk(data, n) => Ahead(data, n, ReadChunks(s[n..], ending))
  }

  function OneShot(framing: Framing, s: bytes, ending: Ending): Shot {
    match framing
    case Chunked => ReadChunks(s, ending)
    case Length(want) =>
      if |s| < want then Shot(s, |s|, Truncated(ending, "truncated body")) else Shot(s[..want], want, None)
    case ToEof =>
      Shot(s, |s|, if ending.Eof? then None else Truncated(ending, ""))
  }

  // ---- more bytes never change what was decided ----

  lemma {:induction false} CrlfIsFirst(s: bytes, more: bytes)
    ensures FindCrlf(s).Some? ==> FindCrlf(s + more) == FindCrlf(s)
  {
    if |s| >= 2 {
      assert (s + more)[1..] == s[1..] + more;
      CrlfIsFirst(s[1..], more);
    }
  }

  /** One step of a chunked body, cut after at least its first chunk. */
  lemma ChunkStep(s: bytes, more: bytes)
    requires FindCrlf(s).Some?
    ensures var nl := FindCrlf(s).value;
      && FindCrlf(s + more) == Some(nl)
      && (s + more)[..nl] == s[..nl]
      && (s + more)[nl + 2..] == s[nl + 2..] + more
  {
    hide FindCrlf;
    CrlfIsFirst(s, more);
  }

  lemma DataStep(rest: bytes, more: bytes, size: nat, line: nat, ending: Ending, later: Ending)
    ensures var c, c' := ReadData(rest, size, line, ending), ReadData(rest + more, size, line, later);
      && (c.Chunk? ==> c' == c)
      && (c.Last? ==> c.shot.error.Some? && c.shot.delivered <= (if c'.Chunk? then c'.data else c'.shot.delivered))
  {
    if size <= |rest| {
      assert (rest + more)[..size] == rest[..size];
    }
  }

  /** A chunk that is all there stays the same chunk whatever follows, and so does the end of the body. */
  lemma ChunkIsStable(s: bytes, more: bytes, ending: Ending, later: Ending)
    ensures var c, c' := ReadChunk(s, ending), ReadChunk(s + more, later);
      && (c.Chunk? ==> c' == c && (s + more)[c.n..] == s[c.n..] + more)
      && (c.Last? && c.shot.error.None? ==> c' == c && c.shot.used <= |s|)
      && (c.Last? && c.shot.error.Some? ==> c.shot.delivered <= if c'.Chunk? then c'.data else c'.shot.delivered)
  {
    hide FindCrlf, Strtoul, ReadData;
    if FindCrlf(s).Some? {
      ChunkStep(s, more);
      var nl := FindCrlf(s).value;
      DataStep(s[nl + 2..], more, Strtoul(s[..nl], 16), nl + 2, ending, later);
    }
  }

  /** A complete body stays the same body whatever follows it. */
  lemma {:induction false} CompleteIsStable(s: bytes, more: bytes, ending: Ending, later: Ending)
    requires ReadChunks(s, ending).error.None?
    ensures ReadChunks(s + more, later) == ReadChunks(s, ending)
    ensures ReadChunks(s, ending).used <= |s|
    decreases |s|
  {
    hide ReadChunk;
    ChunkIsStable(s, more, ending, later);
    var c := ReadChunk(s, ending);
    if c.Chunk? {
      CompleteIsStable(s[c.n..], more, ending, later);
    }
  }

  /** What part of a stream delivers is the beginning of what the whole stream delivers. */
  lemma {:induction false} PartDelivers(s: bytes, more: bytes, ending: Ending, later: Ending)
    ensures ReadChunks(s, ending).delivered <= ReadChunks(s + more, later).delivered
    decreases |s|
  {
    hide ReadChunk;
    ChunkIsStable(s, more, ending, later);
    var c := ReadChunk(s, ending);
    if c.Chunk? {
      PartDelivers(s[c.n..], more, ending, later);
    }
  }

  // ---- the chunked coding of RFC 9112, section 7.1 ----

  /** One chunk: its size in hexadecimal digits of either case, zeros in front allowed, an extension, and its data. */
  datatype Piece = Piece(size: bytes, ext: bytes, data: bytes)

  predicate IsExtension(ext: bytes) {
    13 !in ext && (ext == [] || ext[0] == 59 || ext[0] == 32 || ext[0] == 9)
  }

  predicate IsSize(size: bytes) {
    size != [] && forall i :: 0 <= i < |size| ==> HexValue(size[i]).Some?
  }

  predicate IsPiece(p: Piece) {
    IsSize(p.size) && IsExtension(p.ext) && Positional(p.size, 16) == |p.data| < TWO64
  }

  const CRLF: bytes := [13, 10]

  function EncodePiece(p: Piece): bytes {
    p.size + p.ext + CRLF + (if p.data == [] then [] else p.data + CRLF)
  }

  /** Chunks with data, then one without. */
  function Encode(pieces: seq<Piece>, last: Piece): bytes {
    if pieces == [] then EncodePiece(last) else EncodePiece(pieces[0]) + Encode(pieces[1..], last)
  }

  function Body(pieces: seq<Piece>): bytes {
    if pieces == [] then [] else pieces[0].data + Body(pieces[1..])
  }

  ghost predicate IsEncoding(pieces: seq<Piece>, last: Piece) {
    && (forall i :: 0 <= i < |pieces| ==> IsPiece(pieces[i]) && pieces[i].data != [])
    && IsPiece(last) && last.data == []
  }

  lemma {:induction false} CrlfAfter(line: bytes, rest: bytes)
    requires 13 !in line
    ensures FindCrlf(line + (CRLF + rest)) == Some(|line|)
  {
    var s := line + (CRLF + rest);
    if line == [] {
      assert s == CRLF + rest;
    } else {
      assert s[0] == line[0] && line[0] in line;
      assert s[1..] == line[1..] + (CRLF + rest);
      CrlfAfter(line[1..], rest);
    }
  }

  lemma SizeReads(p: Piece)
    requires IsPiece(p)
    ensures Strtoul(p.size + p.ext, 16) == |p.data|
    ensures 13 !in p.size + p.ext
  {
    hide Positional, Strtoul;
    var n := Numeral([], [], [], p.size);
    StrtoulReads(n, 16, p.ext);
    assert [] + ([] + ([] + (p.size + p.ext))) == p.size + p.ext;
    SignAndPrefix();
    forall i | 0 <= i < |p.size| ensures p.size[i] != 13 {
      assert HexValue(p.size[i]).Some?;
    }
  }

  lemma PieceReads(p: Piece, rest: bytes, ending: Ending)
    requires IsPiece(p)
    ensures ReadChunks(EncodePiece(p) + rest, ending)
         == if p.data == [] then Shot([], |EncodePiece(p)|, None)
            else Ahead(p.data, |EncodePiece(p)|, ReadChunks(rest, ending))
  {
    hide Strtoul, FindCrlf, IsPiece, ReadChunks;
    SizeReads(p);
    var line := p.size + p.ext;
    var after := (if p.data == [] then [] else p.data + CRLF) + rest;
    var s := EncodePiece(p) + rest;
    assert s == line + (CRLF + after);
    CrlfAfter(line, after);
    assert s[..|line|] == line && s[|line| + 2..] == after;
    if p.data == [] {
      assert ReadChunk(s, ending) == Last(Shot([], |EncodePiece(p)|, None));
    } else {
      assert after == p.data + (CRLF + rest);
      assert after[..|p.data|] == p.data && s[|EncodePiece(p)|..] == rest;
      assert ReadChunk(s, ending) == Chunk(p.data, |EncodePiece(p)|);
    }
    OneStep(s, ending);
  }

  lemma OneStep(s: bytes, ending: Ending)
    ensures var c := ReadChunk(s, ending);
      ReadChunks(s, ending) == if c.Chunk? then Ahead(c.data, c.n, ReadChunks(s[c.n..], ending)) else c.shot
  {
    hide ReadChunk;
  }

  /** Every chunked coding of a body, with whatever behind it, decodes to exactly that body. */
  lemma {:induction false} EncodingDecodes(pieces: seq<Piece>, last: Piece, trailer: bytes, ending: Ending)
    requires IsEncoding(pieces, last)
    ensures ReadChunks(Encode(pieces, last) + trailer, ending) == Shot(Body(pieces), |Encode(pieces, last)|, None)
    decreases |pieces|
  {
    hide ReadChunks, EncodePiece, IsPiece;
    if pieces == [] {
      PieceReads(last, trailer, ending);
    } else {
      var later := Encode(pieces[1..], last);
      EncodingDecodes(pieces[1..], last, trailer, ending);
      PieceReads(pieces[0], later + trailer, ending);
      assert Encode(pieces, last) + trailer == EncodePiece(pieces[0]) + (later + trailer);
    }
  }

  /** The error of a stream that ends too early: what was missing, or why reading failed. */
  predicate EndsEarly(shot: Shot, ending: Ending, missing: set<string>) {
    && shot.error.Some?
    && match ending
       case Eof => shot.error.value in missing
       case Broken(error) => shot.error.value == if error == "" then "read timeout" else error
  }

  lemma {:induction false} ChunksEndEarly(s: bytes, ending: Ending)
    ensures var shot := ReadChunks(s, ending);
      shot.error.Some? ==> EndsEarly(shot, ending, {"truncated chunked body", "truncated chunk"})
    decreases |s|
  {
    hide Strtoul, FindCrlf;
    var c := ReadChunk(s, ending);
    if c.Chunk? {
      ChunksEndEarly(s[c.n..], ending);
    }
  }

  /** A chunked body cut anywhere is never complete, and what it delivered is the beginning of the body. */
  lemma CutEncodingFails(pieces: seq<Piece>, last: Piece, k: nat, ending: Ending)
    requires IsEncoding(pieces, last) && k < |Encode(pieces, last)|
    ensures var shot := ReadChunks(Encode(pieces, last)[..k], ending);
      EndsEarly(shot, ending, {"truncated chunked body", "truncated chunk"}) && shot.delivered <= Body(pieces)
  {
    hide ReadChunks, IsEncoding, Encode, EndsEarly;
    var whole := Encode(pieces, last);
    assert whole[..k] + whole[k..] == whole && whole + [] == whole;
    EncodingDecodes(pieces, last, [], Eof);
    PartDelivers(whole[..k], whole[k..], ending, Eof);
    ChunksEndEarly(whole[..k], ending);
    if ReadChunks(whole[..k], ending).error.None? {
      CompleteIsStable(whole[..k], whole[k..], ending, Eof);
    }
  }

  /** Under a declared length the body is complete exactly when that many bytes came; the rest is left alone. */
  lemma LengthCompletes(want: u64, s: bytes, ending: Ending)
    ensures var shot := OneShot(Length(want), s, ending);
      && (shot.error.None? <==> |s| >= want)
      && (|s| < want ==> EndsEarly(shot, ending, {"truncated body"}))
      && shot.delivered == s[..Min(want, |s|)] && shot.used == Min(want, |s|)
  {}

  /** With neither chunks nor a length the body is the whole stream, complete exactly when the peer closed it. */
  lemma EofCompletes(s: bytes, ending: Ending)
    ensures var shot := OneShot(ToEof, s, ending);
      && shot.delivered == s && shot.used == |s|
      && (shot.error.None? <==> ending.Eof?) && (ending.Broken? ==> EndsEarly(shot, ending, {}))
  {}
}
