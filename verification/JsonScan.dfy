/** The scanners for the tokens of a JSON text that are longer than a byte. */
module JsonScan {
  import opened Basics
  import opened JsonText

  /** The byte under the cursor.  A null byte also counts as the end of the stream. */
  function Cur(rest: seq<byte>): byte { if rest == [] then 0 else rest[0] }

  function Next(rest: seq<byte>): seq<byte> { if rest == [] then [] else rest[1..] }

  datatype Scan<T> = Scan(value: T, rest: seq<byte>)

  /** Expects `word` under the cursor. */
  function ScanWord(rest: seq<byte>, word: seq<byte>): Option<seq<byte>> {
    if word == [] then Some(rest)
    else if Cur(rest) != word[0] then None
    else ScanWord(Next(rest), word[1..])
  }

  // ---- strings ----

  function Or(a: nat, b: nat): (r: nat)
    ensures r <= a + b
    decreases b
  {
    if b == 0 then a else 2 * Or(a / 2, b / 2) + (if a % 2 == 1 || b % 2 == 1 then 1 else 0)
  }

  /** The value given to a hexadecimal digit, in arithmetic on bytes; any byte is given one. */
  function HexDigitOf(c: byte): byte {
    var lower: int := if c / 32 % 2 == 1 then c else c + 32;
    var d := (lower - 48) % 256;
    if d > 9 then (d - 39) % 256 else d
  }

  function HexShift(num: nat, c: byte): (r: nat)
    ensures r <= 16 * num + 255
  {
    16 * Or(num, c / 16) + c % 16
  }

  function HexBound(n: nat): nat { if n == 0 then 0 else 16 * HexBound(n - 1) + 255 }

  /** Moves on `n` times, each time taking in the digit found. */
  function ScanHex(rest: seq<byte>, n: nat): (r: Scan<nat>)
    ensures r.value <= HexBound(n) && |r.rest| <= |rest|
  {
    if n == 0 then Scan(0, rest)
    else
      var s := ScanHex(rest, n - 1);
      Scan(HexShift(s.value, HexDigitOf(Cur(Next(s.rest)))), Next(s.rest))
  }

  lemma FourDigitsInRange()
    ensures HexBound(4) < 0x110000
  {
    assert HexBound(2) == 16 * 255 + 255;
  }

  /** What a byte behind a backslash is read as; any byte is read as something. */
  function Unescape(c: byte): byte {
    if c == 98 then 8 else if c == 102 then 12 else if c == 110 then 10
    else if c == 114 then 13 else if c == 116 then 9 else c
  }

  /** One character of a string: its bytes, and the cursor after it. */
  function ScanChar(rest: seq<byte>): (r: Scan<seq<byte>>)
    requires Cur(rest) != 0
    ensures |r.rest| < |rest|
  {
    if Cur(rest) == BACKSLASH then
      var c := Cur(Next(rest));
      if c == LOWER_U then
        FourDigitsInRange();
        var s := ScanHex(Next(rest), 4);
        Scan(Utf8(s.value), Next(s.rest))
      else Scan([Unescape(c)], Next(Next(rest)))
    else Scan([Cur(rest)], Next(rest))
  }

  /** A string up to its closing quote, with `acc` read already. */
  function ScanString(rest: seq<byte>, acc: seq<byte>): Option<Scan<seq<byte>>>
    decreases |rest|
  {
    if Cur(rest) == 0 then None
    else if Cur(rest) == QUOTE then Some(Scan(acc, Next(rest)))
    else
      var s := ScanChar(rest);
      ScanString(s.rest, acc + s.value)
  }

  /** A hexadecimal digit of either case is given its value. */
  lemma HexDigitRight(c: byte)
    requires HexDigit(c)
    ensures HexDigitOf(c) == HexValue(c)
  {
  }

  lemma HexShiftRight(num: nat, c: byte)
    requires HexDigit(c)
    ensures HexShift(num, HexDigitOf(c)) == 16 * num + HexValue(c)
  {
    HexDigitRight(c);
    hide HexDigitOf, HexValue;
    assert HexDigitOf(c) / 16 == 0;
  }

  lemma Skip(first: byte, tail: seq<byte>)
    ensures Cur([first] + tail) == first && Next([first] + tail) == tail
  {
  }

  lemma {:induction false} HexAdvances(rest: seq<byte>, n: nat)
    requires n < |rest|
    ensures ScanHex(rest, n).rest == rest[n..]
    ensures n > 0 ==> ScanHex(rest, n).value == HexShift(ScanHex(rest, n - 1).value, HexDigitOf(rest[n]))
  {
    hide HexShift, HexDigitOf;
    if n > 0 {
      HexAdvances(rest, n - 1);
      assert rest[n - 1..][1..] == rest[n..];
    }
  }

  ghost predicate FourDigits(rest: seq<byte>, d: seq<byte>) {
    |rest| > 4 && |d| == 4 && forall i :: 0 <= i < 4 ==> rest[i + 1] == d[i] && HexDigit(d[i])
  }

  lemma HexOne(rest: seq<byte>, d: seq<byte>, n: nat)
    requires FourDigits(rest, d) && n < 4
    ensures ScanHex(rest, n + 1) == Scan(16 * ScanHex(rest, n).value + HexValue(d[n]), rest[n + 1..])
  {
    HexAdvances(rest, n + 1);
    HexShiftRight(ScanHex(rest, n).value, d[n]);
    hide HexShift, HexDigitOf, HexValue, ScanHex;
  }

  lemma HexRight(rest: seq<byte>, d: seq<byte>)
    requires FourDigits(rest, d)
    ensures ScanHex(rest, 4) == Scan(HexCode(d), rest[4..])
  {
    HexTwo(rest, d);
    hide HexShift, HexDigitOf, HexValue, ScanHex, HexBound;
    HexOne(rest, d, 2);
    HexOne(rest, d, 3);
    HexHorner(d);
    hide HexCode;
  }

  lemma HexTwo(rest: seq<byte>, d: seq<byte>)
    requires FourDigits(rest, d)
    ensures ScanHex(rest, 2).value == 16 * HexValue(d[0]) + HexValue(d[1])
  {
    assert ScanHex(rest, 0).value == 0;
    hide HexShift, HexDigitOf, HexValue, ScanHex, HexBound;
    HexOne(rest, d, 0);
    HexOne(rest, d, 1);
  }

  lemma HexHorner(d: seq<byte>)
    requires |d| == 4 && forall i :: 0 <= i < 4 ==> HexDigit(d[i])
    ensures HexCode(d) == 16 * (16 * (16 * HexValue(d[0]) + HexValue(d[1])) + HexValue(d[2])) + HexValue(d[3])
  {
    hide HexValue;
  }

  /** A character as written is read as what it stands for. */
  lemma CharScans(c: Char, tail: seq<byte>)
    requires LegalChar(c)
    ensures var rest := CharText(c) + tail;
            Cur(rest) != 0 && Cur(rest) != QUOTE && ScanChar(rest) == Scan(CharBytes(c), tail)
  {
    var rest := CharText(c) + tail;
    match c
    case Plain(b) =>
      Skip(b, tail);
    case Escaped(code) =>
      assert code in {34, 92, 47, 98, 102, 110, 114, 116};
      assert rest == [BACKSLASH] + ([code] + tail);
      Skip(BACKSLASH, [code] + tail);
      Skip(code, tail);
    case Unicode(d) =>
      var more := [LOWER_U] + d + tail;
      assert rest == [BACKSLASH] + more;
      Skip(BACKSLASH, more);
      assert FourDigits(more, d) && more[4..][1..] == tail;
      HexRight(more, d);
      hide HexCode, ScanHex, Utf8;
  }

  /** The eight escapes of two bytes, in plain bytes. */
  lemma EscapesScan(tail: seq<byte>)
    ensures ScanChar([92, 34] + tail) == Scan([34], tail) && ScanChar([92, 92] + tail) == Scan([92], tail)
    ensures ScanChar([92, 47] + tail) == Scan([47], tail) && ScanChar([92, 98] + tail) == Scan([8], tail)
    ensures ScanChar([92, 102] + tail) == Scan([12], tail) && ScanChar([92, 110] + tail) == Scan([10], tail)
    ensures ScanChar([92, 114] + tail) == Scan([13], tail) && ScanChar([92, 116] + tail) == Scan([9], tail)
  {
    forall c | c in {34, 92, 47, 98, 102, 110, 114, 116}
      ensures ScanChar([92, c] + tail) == Scan([ESCAPES[c]], tail)
    {
      assert CharText(Escaped(c)) == [92, c] && LegalChar(Escaped(c));
      CharScans(Escaped(c), tail);
    }
  }

  lemma {:induction false} StringScans(cs: seq<Char>, acc: seq<byte>, tail: seq<byte>)
    requires LegalChars(cs)
    ensures ScanString(CharsText(cs) + ([QUOTE] + tail), acc) == Some(Scan(acc + CharsBytes(cs), tail))
  {
    hide CharText, CharBytes, ScanChar, LegalChar;
    if cs == [] {
      assert [] + ([QUOTE] + tail) == [QUOTE] + tail;
      Skip(QUOTE, tail);
      assert acc + [] == acc;
    } else {
      var more := CharsText(cs[1..]) + ([QUOTE] + tail);
      assert CharsText(cs) + ([QUOTE] + tail) == CharText(cs[0]) + more;
      CharScans(cs[0], more);
      StringScans(cs[1..], acc + CharBytes(cs[0]), tail);
      assert (acc + CharBytes(cs[0])) + CharsBytes(cs[1..]) == acc + CharsBytes(cs);
    }
  }

  // ---- numbers ----

  predicate DecimalMark(c: byte) { c == 46 || c == 69 || c == 101 }
  predicate NumberByte(c: byte) { DecimalMark(c) || c == MINUS || Digit(c) }

  /** The longest run of bytes that numbers are made of. */
  function ScanNumber(rest: seq<byte>, acc: seq<byte>): Scan<seq<byte>> {
    if NumberByte(Cur(rest)) then ScanNumber(rest[1..], acc + [rest[0]]) else Scan(acc, rest)
  }

  ghost predicate HasMark(text: seq<byte>) {
    exists i :: 0 <= i < |text| && DecimalMark(text[i])
  }

  /** The value of an optional minus sign and one or more digits, and of nothing else. */
  function ParseInteger(text: seq<byte>): Option<int> {
    var negative := text != [] && text[0] == MINUS;
    var ds := if negative then text[1..] else text;
    if ds != [] && Digits(ds) then Some(Signed(negative, DigitsValue(ds))) else None
  }

  ghost function ParseNumber(text: seq<byte>): Option<Scalar> {
    if HasMark(text) then Some(Decimal(text))
    else match ParseInteger(text)
      case None => None
      case Some(n) => Some(Int(n))
  }

  lemma {:induction false} DigitsScan(ds: seq<byte>, acc: seq<byte>, tail: seq<byte>)
    requires Digits(ds) && !NumberByte(Cur(tail))
    ensures ScanNumber(ds + tail, acc) == Scan(acc + ds, tail)
  {
    if ds == [] {
      assert [] + tail == tail && acc + [] == acc;
    } else {
      assert (ds + tail)[1..] == ds[1..] + tail;
      DigitsScan(ds[1..], acc + [ds[0]], tail);
      assert (acc + [ds[0]]) + ds[1..] == acc + ds;
    }
  }

  /** An integer as written is scanned whole, its first byte by itself. */
  lemma NumberScans(negative: bool, digits: seq<byte>, tail: seq<byte>)
    requires |digits| > 0 && Digits(digits) && !NumberByte(Cur(tail))
    ensures var text := NumberText(negative, digits);
            var rest := text + tail;
            && (rest[0] == MINUS || Digit(rest[0]))
            && ScanNumber(Next(rest), [rest[0]]) == Scan(text, tail)
  {
    var text := NumberText(negative, digits);
    var rest := text + tail;
    var more := if negative then digits else digits[1..];
    assert rest == [text[0]] + (more + tail);
    Skip(text[0], more + tail);
    DigitsScan(more, [text[0]], tail);
    assert [text[0]] + more == text;
    hide ScanNumber, NumberByte;
    assert rest[0] == text[0];
  }

  lemma NumberParses(negative: bool, digits: seq<byte>)
    requires |digits| > 0 && Digits(digits)
    ensures ParseNumber(NumberText(negative, digits)) == Some(Int(Signed(negative, DigitsValue(digits))))
  {
    var text := NumberText(negative, digits);
    hide DigitsValue, Signed;
    assert Digit(digits[0]);
    if negative {
      assert text[0] == MINUS && text[1..] == digits;
    } else {
      assert text == digits && text[0] != MINUS;
    }
    assert ParseInteger(text) == Some(Signed(negative, DigitsValue(digits)));
    hide ParseInteger, Digits;
    NoMark(negative, digits);
  }

  /** Of the texts without a point or an exponent only integers as written are numbers. */
  lemma IntegersOnly(text: seq<byte>)
    ensures ParseInteger(text).Some?
            <==> exists negative, ds :: |ds| > 0 && Digits(ds) && text == NumberText(negative, ds)
  {
    hide DigitsValue, Signed;
    if ParseInteger(text).Some? {
      var negative := text != [] && text[0] == 45;
      var ds := if negative then text[1..] else text;
      assert text == NumberText(negative, ds);
    }
    forall negative, ds: seq<byte> | |ds| > 0 && Digits(ds) && text == NumberText(negative, ds)
      ensures ParseInteger(text).Some?
    {
      assert Digit(ds[0]);
      assert if negative then text[1..] == ds else text == ds;
    }
  }

  lemma NoMark(negative: bool, digits: seq<byte>)
    requires Digits(digits)
    ensures !HasMark(NumberText(negative, digits))
  {
    var text := NumberText(negative, digits);
    forall i | 0 <= i < |text| ensures !DecimalMark(text[i]) {
      assert text[i] == if negative then if i == 0 then MINUS else digits[i - 1] else digits[i];
    }
  }
}
