/** The two date parsers: ISO 8601 timestamps and the HTTP date of section 5.6.7 of RFC 9110. */
module Dates {
  import opened Bytes
  import opened Calendar

  datatype Instant = Instant(date: Date, hour: int, minute: int, second: int)

  /** A date-time that both formats can spell: a four-digit year; second 60 is a leap second. */
  ghost predicate Printable(t: Instant) {
    && ValidDate(t.date) && 0 <= t.date.year <= 9999
    && 0 <= t.hour < 24 && 0 <= t.minute < 60 && 0 <= t.second <= 60
  }

  // ---- sscanf, as far as the formats need it ----

  /** The C string: everything before the first NUL. */
  function CString(s: bytes): bytes {
    if s == [] || s[0] == 0 then [] else [s[0]] + CString(s[1..])
  }

  /** Up to `width` digits. */
  function DigitsWithin(s: bytes, width: nat): (k: nat)
    ensures k <= |s|
  {
    Min(width, DigitRun(s))
  }

  /** `%<width>d`: blanks, an optional sign, which counts towards the width, and at least one digit. */
  function ScanInt(s: bytes, width: nat): Option<(int, bytes)> {
    var t := SkipBlanks(s);
    var signed := t != [] && width > 0 && (t[0] == 43 || t[0] == 45);
    var u := if signed then t[1..] else t;
    var k := DigitsWithin(u, if signed then width - 1 else width);
    if k == 0 then None
    else Some((if signed && t[0] == 45 then -FromDigits(u[..k]) else FromDigits(u[..k]), u[k..]))
  }

  /** `%d` */
  function ScanAnyInt(s: bytes): Option<(int, bytes)> {
    ScanInt(s, |s|)
  }

  /** A literal character of the format. */
  function ScanChar(s: bytes, c: byte): Option<bytes> {
    if s != [] && s[0] == c then Some(s[1..]) else None
  }

  function NonBlanksWithin(s: bytes, width: nat): (k: nat)
    ensures k <= |s|
    decreases width
  {
    if width == 0 || s == [] || IsBlank(s[0]) then 0 else 1 + NonBlanksWithin(s[1..], width - 1)
  }

  /** `%3s` */
  function ScanWord3(s: bytes): Option<(bytes, bytes)> {
    var t := SkipBlanks(s);
    var k := NonBlanksWithin(t, 3);
    if k == 0 then None else Some((t[..k], t[k..]))
  }

  // ---- the parsers ----

  function Seconds(year: int, month: int, day: int, time: int): int {
    DaysFromCivil(year, Wrap(month), Wrap(day)) * 86400 + time
  }

  /** `%d:%d:%d`, each field at most `width` wide. */
  function ScanTime(s: bytes, width: nat): Option<int> {
    var (hour, s1) :- ScanInt(s, width);
    var s2 :- ScanChar(s1, 58);
    var (minute, s3) :- ScanInt(s2, width);
    var s4 :- ScanChar(s3, 58);
    var (second, _) :- ScanInt(s4, width);
    Some(hour * 3600 + minute * 60 + second)
  }

  function ScanIso(s: bytes): Option<int> {
    var (year, s1) :- ScanInt(s, 4);
    var s2 :- ScanChar(s1, 45);
    var (month, s3) :- ScanInt(s2, 2);
    var s4 :- ScanChar(s3, 45);
    var (day, s5) :- ScanInt(s4, 2);
    var s6 :- ScanChar(s5, 84);
    var time :- ScanTime(s6, 2);
    Some(Seconds(year, month, day, time))
  }

  /** `parse_iso8601`: 0 when the text does not scan. */
  function ParseIso8601(s: bytes): int {
    match ScanIso(CString(s))
    case Some(t) => t
    case None => 0
  }

  const MONTHS: seq<bytes> := [
    [74, 97, 110], [70, 101, 98], [77, 97, 114], [65, 112, 114], [77, 97, 121], [74, 117, 110],
    [74, 117, 108], [65, 117, 103], [83, 101, 112], [79, 99, 116], [78, 111, 118], [68, 101, 99]]

  /** The month with this name, or 0. */
  function MonthNumber(name: bytes, from: nat): (m: nat)
    requires from <= 12
    decreases 12 - from
  {
    if from == 12 then 0 else if MONTHS[from] == name then from + 1 else MonthNumber(name, from + 1)
  }

  /** What follows the first comma, or everything. */
  function AfterComma(s: bytes): bytes {
    if 44 in s then DropComma(s) else s
  }

  function DropComma(s: bytes): bytes {
    if s == [] then [] else if s[0] == 44 then s[1..] else DropComma(s[1..])
  }

  function ScanHttp(s: bytes): Option<int> {
    var (day, s1) :- ScanAnyInt(SkipBlanks(s));
    var (name, s2) :- ScanWord3(SkipBlanks(s1));
    var (year, s3) :- ScanAnyInt(SkipBlanks(s2));
    var s4 := SkipBlanks(s3);
    var time :- ScanTime(s4, |s4|);
    var month := MonthNumber(name, 0);
    if month == 0 then None else Some(Seconds(year, month, day, time))
  }

  function ParseHttpDate(s: bytes): int {
    match ScanHttp(AfterComma(CString(s)))
    case Some(t) => t
    case None => 0
  }

  // ---- the formats ----

  function Two(n: int): bytes
    requires 0 <= n < 100
  {
    [48 + n / 10, 48 + n % 10]
  }

  function Four(n: int): bytes
    requires 0 <= n < 10000
  {
    Two(n / 100) + Two(n % 100)
  }

  /** 01:08:55, and then `rest`. */
  ghost function TimeText(t: Instant, rest: bytes): bytes
    requires Printable(t)
  {
    Two(t.hour) + ([58] + (Two(t.minute) + ([58] + (Two(t.second) + rest))))
  }

  /** 2026-08-21T01:08:55, and then `rest`. */
  ghost function IsoText(t: Instant, rest: bytes): bytes
    requires Printable(t)
  {
    Four(t.date.year) + ([45] + (Two(t.date.month) + ([45] + (Two(t.date.day) + ([84] + TimeText(t, rest))))))
  }

  ghost function MonthName(m: int): bytes
    requires 1 <= m <= 12
  {
    match m
    case 1 => Ascii("Jan")
    case 2 => Ascii("Feb")
    case 3 => Ascii("Mar")
    case 4 => Ascii("Apr")
    case 5 => Ascii("May")
    case 6 => Ascii("Jun")
    case 7 => Ascii("Jul")
    case 8 => Ascii("Aug")
    case 9 => Ascii("Sep")
    case 10 => Ascii("Oct")
    case 11 => Ascii("Nov")
    case 12 => Ascii("Dec")
  }

  lemma NamesOfMonths(m: int)
    requires 1 <= m <= 12
    ensures MONTHS[m - 1] == MonthName(m)
  {}

  /** The HTTP date behind its weekday: a comma, 21 Aug 2026 01:08:55 GMT. */
  ghost function HttpText(t: Instant): bytes
    requires Printable(t)
  {
    [32] + (Two(t.date.day) + ([32] + (MonthName(t.date.month) + ([32] + (Four(t.date.year) + ([32]
    + TimeText(t, [32, 71, 77, 84])))))))
  }

  /** Seconds since the epoch, from the calendar's own day count. */
  ghost function EpochSeconds(t: Instant): int
    requires Printable(t)
  {
    Days(t.date) * 86400 + t.hour * 3600 + t.minute * 60 + t.second
  }

  lemma TwoReads(n: int, rest: bytes, width: nat)
    requires 0 <= n < 100
    requires width == 2 || (width > 2 && (rest == [] || !IsDigit(rest[0])))
    ensures ScanInt(Two(n) + rest, width) == Some((n, rest))
  {
    var s := Two(n) + rest;
    assert SkipBlanks(s) == s;
    assert s[1..][1..] == rest;
    assert DigitRun(s) == 2 + DigitRun(rest);
    assert s[..2] == Two(n) && s[2..] == rest;
    assert Two(n)[..1] == [48 + n / 10] && [48 + n / 10][..0] == [];
    assert FromDigits([48 + n / 10]) == n / 10;
  }

  lemma FourReads(n: int, rest: bytes, width: nat)
    requires 0 <= n < 10000
    requires width == 4 || (width > 4 && (rest == [] || !IsDigit(rest[0])))
    ensures ScanInt(Four(n) + rest, width) == Some((n, rest))
  {
    var d := Four(n);
    var s := d + rest;
    assert SkipBlanks(s) == s;
    FourDigitRun(d, rest);
    FourDigitValue(n);
    hide DigitRun, FromDigits;
    assert s[..4] == d && s[4..] == rest;
  }

  lemma FourDigitRun(d: bytes, rest: bytes)
    requires |d| == 4 && IsDigit(d[0]) && IsDigit(d[1]) && IsDigit(d[2]) && IsDigit(d[3])
    ensures DigitRun(d + rest) == 4 + DigitRun(rest)
  {
    var s := d + rest;
    assert s == [d[0]] + ([d[1]] + ([d[2]] + ([d[3]] + rest)));
    DigitFirst(d[0], [d[1]] + ([d[2]] + ([d[3]] + rest)));
    DigitFirst(d[1], [d[2]] + ([d[3]] + rest));
    DigitFirst(d[2], [d[3]] + rest);
    DigitFirst(d[3], rest);
    hide DigitRun;
  }

  lemma DigitFirst(d: byte, rest: bytes)
    requires IsDigit(d)
    ensures DigitRun([d] + rest) == 1 + DigitRun(rest)
  {
    assert ([d] + rest)[1..] == rest;
  }

  lemma FourDigitValue(n: int)
    requires 0 <= n < 10000
    ensures FromDigits(Four(n)) == n
  {
    var d := Four(n);
    assert d[..3][..2][..1][..0] == [];
    assert d[..3][..2][..1] == [d[0]] && d[..3][..2] == [d[0], d[1]] && d[..3] == [d[0], d[1], d[2]];
    assert FromDigits([d[0]]) == d[0] - 48;
    assert FromDigits([d[0], d[1]]) == 10 * (d[0] - 48) + d[1] - 48 by { assert [d[0], d[1]][..1] == [d[0]]; }
    assert FromDigits([d[0], d[1], d[2]]) == 10 * FromDigits([d[0], d[1]]) + d[2] - 48 by {
      assert [d[0], d[1], d[2]][..2] == [d[0], d[1]];
    }
  }

  lemma CharReads(c: byte, rest: bytes)
    ensures ScanChar([c] + rest, c) == Some(rest)
  {
    assert ([c] + rest)[1..] == rest;
  }

  lemma TimeReads(t: Instant, rest: bytes, width: nat)
    requires Printable(t)
    requires width == 2 || (width > 2 && (rest == [] || !IsDigit(rest[0])))
    ensures ScanTime(TimeText(t, rest), width) == Some(t.hour * 3600 + t.minute * 60 + t.second)
  {
    hide ScanInt, ScanChar, Two;
    var s4 := Two(t.second) + rest;
    var s2 := Two(t.minute) + ([58] + s4);
    TwoReads(t.hour, [58] + s2, width);
    CharReads(58, s2);
    TwoReads(t.minute, [58] + s4, width);
    CharReads(58, s4);
    TwoReads(t.second, rest, width);
  }

  lemma IsoReads(t: Instant, rest: bytes)
    requires Printable(t)
    ensures ScanIso(IsoText(t, rest)) == Some(EpochSeconds(t))
  {
    hide ScanInt, ScanChar, Two, Four, DaysFromCivil, TimeText, ScanTime;
    var d := t.date;
    var s4 := Two(d.day) + ([84] + TimeText(t, rest));
    var s2 := Two(d.month) + ([45] + s4);
    FourReads(d.year, [45] + s2, 4);
    CharReads(45, s2);
    TwoReads(d.month, [45] + s4, 2);
    CharReads(45, s4);
    TwoReads(d.day, [84] + TimeText(t, rest), 2);
    CharReads(84, TimeText(t, rest));
    TimeReads(t, rest, 2);
  }

  lemma NameReads(m: int, rest: bytes)
    requires 1 <= m <= 12
    ensures ScanWord3(MONTHS[m - 1] + ([32] + rest)) == Some((MONTHS[m - 1], [32] + rest))
    ensures MonthNumber(MONTHS[m - 1], 0) == m
  {
    hide MonthNumber;
    NameIsPlain(m);
    NameFound(m, 0);
    WordReads(MONTHS[m - 1], [32] + rest);
  }

  lemma NameIsPlain(m: int)
    requires 1 <= m <= 12
    ensures var name := MONTHS[m - 1];
      |name| == 3 && !IsBlank(name[0]) && !IsBlank(name[1]) && !IsBlank(name[2])
  {}

  lemma NamesDiffer(i: nat, j: nat)
    requires i < j < 12
    ensures MONTHS[i] != MONTHS[j]
  {
    assert MONTHS[i][2] == MONTHS[j][2] ==> MONTHS[i][1] != MONTHS[j][1];
  }

  lemma {:induction false} NameFound(m: int, from: nat)
    requires from < m <= 12
    ensures MonthNumber(MONTHS[m - 1], from) == m
    decreases m - from
  {
    if from < m - 1 {
      NamesDiffer(from, m - 1);
      NameFound(m, from + 1);
    }
  }

  lemma WordReads(name: bytes, rest: bytes)
    requires |name| == 3 && !IsBlank(name[0]) && !IsBlank(name[1]) && !IsBlank(name[2])
    ensures ScanWord3(name + rest) == Some((name, rest))
  {
    hide IsBlank;
    var s := name + rest;
    assert SkipBlanks(s) == s && s[1..][1..][1..] == rest;
    assert s[..3] == name && s[3..] == rest;
    assert !IsBlank(s[0]) && !IsBlank(s[1..][0]) && !IsBlank(s[1..][1..][0]);
    assert NonBlanksWithin(s, 3) == 1 + NonBlanksWithin(s[1..], 2) == 2 + NonBlanksWithin(s[1..][1..], 1) == 3;
  }

  lemma BlankSkipped(s: bytes)
    requires s != [] && !IsBlank(s[0])
    ensures SkipBlanks([32] + s) == s && SkipBlanks(s) == s
  {
    assert ([32] + s)[1..] == s;
  }

  lemma TextStarts(t: Instant, rest: bytes)
    requires Printable(t)
    ensures |Two(t.date.day)| == 2 && !IsBlank(Two(t.date.day)[0])
    ensures |Four(t.date.year)| == 4 && !IsBlank(Four(t.date.year)[0])
    ensures |TimeText(t, rest)| > 2 && !IsBlank(TimeText(t, rest)[0])
  {}

  lemma HttpReads(t: Instant)
    requires Printable(t)
    ensures ScanHttp(HttpText(t)) == Some(EpochSeconds(t))
  {
    hide ScanInt, ScanWord3, ScanTime, Two, Four, DaysFromCivil, TimeText, SkipBlanks, MonthNumber, MonthName;
    var d := t.date;
    NamesOfMonths(d.month);
    var time := TimeText(t, [32, 71, 77, 84]);
    var year := Four(d.year) + ([32] + time);
    var name := MONTHS[d.month - 1] + ([32] + year);
    var day := Two(d.day) + ([32] + name);
    TextStarts(t, [32, 71, 77, 84]);
    BlankSkipped(day);
    TwoReads(d.day, [32] + name, |day|);
    BlankSkipped(name);
    NameReads(d.month, year);
    BlankSkipped(year);
    FourReads(d.year, [32] + time, |year|);
    BlankSkipped(time);
    TimeReads(t, [32, 71, 77, 84], |time|);
  }

  // ---- C strings and commas ----

  lemma {:induction false} NoNul(s: bytes)
    requires forall i :: 0 <= i < |s| ==> s[i] != 0
    ensures CString(s) == s
  {
    if s != [] {
      NoNul(s[1..]);
    }
  }

  lemma {:induction false} CommaDropped(head: bytes, rest: bytes)
    requires 44 !in head
    ensures AfterComma(head + [44] + rest) == rest
  {
    var s := head + [44] + rest;
    assert s[|head|] == 44;
    DropsHead(head, rest);
  }

  lemma {:induction false} DropsHead(head: bytes, rest: bytes)
    requires 44 !in head
    ensures DropComma(head + [44] + rest) == rest
  {
    var s := head + [44] + rest;
    if head == [] {
      assert s == [44] + rest;
    } else {
      assert head[0] in head && s[1..] == head[1..] + [44] + rest;
      DropsHead(head[1..], rest);
    }
  }

  /** Both date parsers give, for the same instant, the same seconds, which are those of the calendar; the ISO form
      may carry any fraction or zone behind the seconds, the HTTP form any weekday before the comma, or neither. */
  lemma ParsersAgree(t: Instant, suffix: bytes, weekday: bytes)
    requires Printable(t)
    requires 44 !in weekday && 0 !in weekday && 0 !in suffix
    ensures ParseIso8601(IsoText(t, suffix)) == EpochSeconds(t)
    ensures ParseHttpDate(weekday + [44] + HttpText(t)) == ParseHttpDate(HttpText(t)) == EpochSeconds(t)
  {
    hide ScanIso, ScanHttp, IsoText, HttpText, AfterComma, CString;
    IsoReads(t, suffix);
    HttpReads(t);
    CommaDropped(weekday, HttpText(t));
    TextHasNoNul(t, suffix);
    TextHasNoNul(t, [32, 71, 77, 84]);
    NoNul(IsoText(t, suffix));
    NoNul(weekday + [44] + HttpText(t));
    NoNul(HttpText(t));
    TextHasNoComma(t);
  }

  lemma TextHasNoComma(t: Instant)
    requires Printable(t)
    ensures AfterComma(HttpText(t)) == HttpText(t)
  {
    NamesOfMonths(t.date.month);
    hide MonthName;
    NameHasNoComma(t.date.month);
    assert forall n :: 0 <= n < 100 ==> 44 !in Two(n);
    hide Two;
    assert 44 !in TimeText(t, [32, 71, 77, 84]);
    hide TimeText;
    assert 44 !in HttpText(t);
  }

  lemma NameHasNoComma(m: int)
    requires 1 <= m <= 12
    ensures 44 !in MONTHS[m - 1]
  {}

  // ---- what the parsers refuse ----

  ghost predicate AllDecimal(digits: bytes) {
    forall i :: 0 <= i < |digits| ==> 48 <= digits[i] <= 57
  }

  /** `%<width>d` exactly: blanks, a sign or none, and as many digits as follow and fit in the width, at least one. */
  ghost predicate IsIntField(blanks: bytes, sign: bytes, digits: bytes, rest: bytes, width: nat) {
    && AllBlank(blanks) && (sign == [] || sign == [43] || sign == [45])
    && digits != [] && AllDecimal(digits)
    && |sign| + |digits| <= width
    && (|sign| + |digits| == width || rest == [] || !(48 <= rest[0] <= 57))
  }

  function SignedValue(sign: bytes, digits: bytes): int {
    if sign == [45] then -FromDigits(digits) else FromDigits(digits)
  }

  lemma ScanIntReads(blanks: bytes, sign: bytes, digits: bytes, rest: bytes, width: nat)
    requires IsIntField(blanks, sign, digits, rest, width)
    ensures ScanInt(blanks + (sign + (digits + rest)), width) == Some((SignedValue(sign, digits), rest))
  {
    var u := digits + rest;
    var t := sign + u;
    assert t[0] == if sign == [] then digits[0] else sign[0];
    BlanksGo(blanks, t);
    assert t[|sign|..] == u && u[..|digits|] == digits && u[|digits|..] == rest;
    RunInFront(digits, rest);
    hide SkipBlanks, FromDigits, DigitRun, AllBlank;
  }

  lemma {:induction false} RunInFront(digits: bytes, rest: bytes)
    requires AllDecimal(digits)
    ensures DigitRun(digits + rest) == |digits| + DigitRun(rest)
    ensures DigitRun(rest) == 0 <==> rest == [] || !(48 <= rest[0] <= 57)
  {
    if digits == [] {
      assert digits + rest == rest;
    } else {
      assert (digits + rest)[1..] == digits[1..] + rest;
      RunInFront(digits[1..], rest);
    }
  }

  /** Nothing else is taken for a number. */
  lemma ScanIntFound(s: bytes, width: nat) returns (blanks: bytes, sign: bytes, digits: bytes)
    requires ScanInt(s, width).Some?
    ensures var (v, rest) := ScanInt(s, width).value;
      && IsIntField(blanks, sign, digits, rest, width) && s == blanks + (sign + (digits + rest))
      && v == SignedValue(sign, digits)
  {
    hide AllBlank, AllDecimal, SkipBlanks, FromDigits, DigitsWithin, ScanInt, SignedValue;
    blanks := BlanksFound(s);
    var t, n := SkipBlanks(s), SignLength(SkipBlanks(s), width);
    var u := t[n..];
    var k := DigitsWithin(u, width - n);
    sign, digits := t[..n], u[..k];
    ScanIntIs(s, width);
    assert t == sign + (digits + u[k..]);
    DigitsTaken(u, width - n);
  }

  function SignLength(t: bytes, width: nat): (n: nat)
    ensures n <= width && n <= |t|
  {
    if t != [] && width > 0 && (t[0] == 43 || t[0] == 45) then 1 else 0
  }

  lemma ScanIntIs(s: bytes, width: nat)
    requires ScanInt(s, width).Some?
    ensures var t, n := SkipBlanks(s), SignLength(SkipBlanks(s), width);
      var k := DigitsWithin(t[n..], width - n);
      && (n == 1 ==> t[0] == 43 || t[0] == 45) && k > 0
      && ScanInt(s, width) == Some((SignedValue(t[..n], t[n..][..k]), t[n..][k..]))
  {
    hide SkipBlanks, FromDigits, DigitsWithin;
  }

  lemma DigitsTaken(u: bytes, width: nat)
    ensures var k := DigitsWithin(u, width);
      && k <= width && AllDecimal(u[..k])
      && (k == width || u[k..] == [] || !(48 <= u[k..][0] <= 57))
  {
    RunOfDigits(u, DigitsWithin(u, width));
    hide DigitRun;
  }

  lemma {:induction false} RunOfDigits(s: bytes, k: nat)
    requires k <= DigitRun(s)
    ensures forall i :: 0 <= i < k ==> 48 <= s[..k][i] <= 57
    ensures k == DigitRun(s) && k < |s| ==> !(48 <= s[k..][0] <= 57)
  {
    if s != [] && k > 0 {
      RunOfDigits(s[1..], k - 1);
      assert forall i :: 1 <= i < k ==> s[..k][i] == s[1..][..k - 1][i - 1];
      assert k < |s| ==> s[k..][0] == s[1..][k - 1..][0];
    }
  }

  /** A text without a `T` is not a timestamp. */
  lemma NoTimeIsRefused(s: bytes)
    requires 84 !in s
    ensures ParseIso8601(s) == 0
  {
    PartOfCString(s);
    hide ScanInt, ScanTime, CString;
    var c := CString(s);
    assert 84 !in c;
    forall t, width | ScanInt(t, width).Some? && 84 !in t ensures 84 !in ScanInt(t, width).value.1 {
      ScanIntDrops(t, width);
    }
  }

  lemma {:induction false} PartOfCString(s: bytes)
    ensures forall c :: c in CString(s) ==> c in s
  {
    if s != [] && s[0] != 0 {
      PartOfCString(s[1..]);
    }
  }

  lemma ScanIntDrops(s: bytes, width: nat)
    requires ScanInt(s, width).Some?
    ensures forall c :: c in ScanInt(s, width).value.1 ==> c in s
  {
    var blanks, sign, digits := ScanIntFound(s, width);
  }

  /** A date whose month has none of the twelve names is refused. */
  lemma UnknownMonthIsRefused(weekday: bytes, day: int, name: bytes, rest: bytes)
    requires 44 !in weekday && 0 !in weekday && 0 <= day < 100 && 0 !in rest
    requires |name| == 3 && !IsBlank(name[0]) && !IsBlank(name[1]) && !IsBlank(name[2]) && 0 !in name
    requires forall m :: 1 <= m <= 12 ==> name != MonthName(m)
    ensures ParseHttpDate(weekday + [44] + ([32] + (Two(day) + ([32] + (name + rest))))) == 0
  {
    var tail := [32] + (Two(day) + ([32] + (name + rest)));
    var s := weekday + [44] + tail;
    TwoHasNoNul();
    assert 0 !in s;
    NoNul(s);
    CommaDropped(weekday, tail);
    NotAMonth(name, 0);
    DayAndName(day, name, rest);
    hide ScanHttp, MonthName, AfterComma, CString, Two;
  }

  lemma {:induction false} NotAMonth(name: bytes, from: nat)
    requires from <= 12 && forall m :: 1 <= m <= 12 ==> name != MonthName(m)
    ensures MonthNumber(name, from) == 0
    decreases 12 - from
  {
    hide MonthName;
    if from < 12 {
      NamesOfMonths(from + 1);
      NotAMonth(name, from + 1);
    }
  }

  lemma DayAndName(day: int, name: bytes, rest: bytes)
    requires 0 <= day < 100
    requires |name| == 3 && !IsBlank(name[0]) && !IsBlank(name[1]) && !IsBlank(name[2]) && MonthNumber(name, 0) == 0
    ensures ScanHttp([32] + (Two(day) + ([32] + (name + rest)))) == None
  {
    hide ScanInt, ScanWord3, ScanTime, Two, DaysFromCivil, SkipBlanks, MonthNumber;
    var s1 := [32] + (name + rest);
    var s := Two(day) + s1;
    TwoStarts(day);
    BlankSkipped(s);
    BlankSkipped(name + rest);
    TwoReads(day, s1, |s|);
    WordReads(name, rest);
  }

  lemma TwoStarts(n: int)
    requires 0 <= n < 100
    ensures |Two(n)| == 2 && !IsBlank(Two(n)[0])
  {}

  lemma TextHasNoNul(t: Instant, rest: bytes)
    requires Printable(t) && 0 !in rest
    ensures 0 !in IsoText(t, rest) && 0 !in TimeText(t, rest)
    ensures 0 !in HttpText(t)
  {
    TwoHasNoNul();
    hide Two;
    NamesOfMonths(t.date.month);
    hide MonthName;
    NameHasNoNul(t.date.month);
    assert 0 !in TimeText(t, rest) && 0 !in TimeText(t, [32, 71, 77, 84]);
    hide TimeText;
  }

  lemma TwoHasNoNul()
    ensures forall n :: 0 <= n < 100 ==> 0 !in Two(n)
  {}

  lemma NameHasNoNul(m: int)
    requires 1 <= m <= 12
    ensures 0 !in MONTHS[m - 1]
  {}
}
