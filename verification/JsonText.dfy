/** JSON values, the texts that stand for them (section 2 of RFC 4627), and the scanners
    for strings and numbers. */
module JsonText {
  import opened Basics

  const QUOTE: byte := 34
  const MINUS: byte := 45
  const BACKSLASH: byte := 92
  const LOWER_U: byte := 117

  // ---- what texts mean ----

  /** `Decimal` stands for a number with a fraction or an exponent and keeps its text. */
  datatype Scalar = Null | Bool(b: bool) | Int(n: int) | Str(bytes: seq<byte>) | Decimal(text: seq<byte>)

  datatype Json = Leaf(s: Scalar) | List(items: seq<Json>) | Dict(entries: map<Scalar, Json>)

  // ---- texts ----

  /** A character of a string as written. */
  datatype Char = Plain(b: byte) | Escaped(code: byte) | Unicode(digits: seq<byte>)

  datatype Value =
    | NullText
    | FalseText
    | TrueText
    | Number(negative: bool, digits: seq<byte>)
    | String(chars: seq<Char>)
    | Array(gap: seq<byte>, elems: Elems, close: byte)
    | Object(gap: seq<byte>, members: Members, close: byte)

  datatype Elems = NoElems | Elem(before: seq<byte>, value: Value, after: seq<byte>, rest: Elems)

  datatype Members =
    | NoMembers
    | Member(before: seq<byte>, key: seq<Char>, afterKey: seq<byte>,
             beforeValue: seq<byte>, value: Value, after: seq<byte>, rest: Members)

  predicate Blank(c: byte) { c == 32 || c == 9 || c == 10 || c == 13 }
  predicate Digit(c: byte) { 48 <= c <= 57 }
  predicate HexDigit(c: byte) { Digit(c) || 65 <= c <= 70 || 97 <= c <= 102 }

  /** White space, a comma or a colon. */
  predicate Separator(c: byte) { Blank(c) || c == 44 || c == 58 }

  predicate Separators(w: seq<byte>) {
    forall i :: 0 <= i < |w| ==> Separator(w[i])
  }

  predicate Blanks(w: seq<byte>) {
    forall i :: 0 <= i < |w| ==> Blank(w[i])
  }

  predicate Digits(w: seq<byte>) {
    forall i :: 0 <= i < |w| ==> Digit(w[i])
  }

  function HexValue(c: byte): (v: nat)
    requires HexDigit(c)
    ensures v < 16
  {
    if c <= 57 then c - 48 else if c <= 70 then c - 55 else c - 87
  }

  /** The number that four hexadecimal digits stand for. */
  function HexCode(d: seq<byte>): (code: nat)
    requires |d| == 4 && forall i :: 0 <= i < 4 ==> HexDigit(d[i])
    ensures code < 0x1_0000
  {
    HexValue(d[0]) * 0x1000 + HexValue(d[1]) * 0x100 + HexValue(d[2]) * 0x10 + HexValue(d[3])
  }

  /** Half of a surrogate pair, which stands for no character by itself. */
  predicate Surrogate(code: nat) { 0xD800 <= code < 0xE000 }

  /** What may stand behind a backslash, and the character that it stands for there
      (section 2.5 of RFC 4627). */
  const ESCAPES: map<byte, byte> :=
    map[34 := 34, 92 := 92, 47 := 47, 98 := 8, 102 := 12, 110 := 10, 114 := 13, 116 := 9]

  predicate LegalChar(c: Char) {
    match c
    case Plain(b) => b >= 32 && b != QUOTE && b != BACKSLASH
    case Escaped(code) => code in ESCAPES
    case Unicode(d) => |d| == 4 && (forall i :: 0 <= i < 4 ==> HexDigit(d[i])) && !Surrogate(HexCode(d))
  }

  predicate LegalChars(cs: seq<Char>) {
    forall i :: 0 <= i < |cs| ==> LegalChar(cs[i])
  }

  /** A text as section 2 of RFC 4627 has it. */
  predicate Legal(v: Value) {
    match v
    case Number(_, digits) => LegalDigits(digits)
    case String(chars) => LegalChars(chars)
    case Array(gap, elems, close) => Blanks(gap) && LegalElems(elems) && close == 93
    case Object(gap, members, close) => Blanks(gap) && LegalMembers(members) && close == 125
    case _ => true
  }

  predicate LegalDigits(digits: seq<byte>) {
    |digits| > 0 && Digits(digits) && (digits[0] == 48 ==> |digits| == 1)
  }

  predicate LegalElems(es: Elems) {
    es.Elem? ==> Blanks(es.before) && Legal(es.value) && Blanks(es.after) && LegalElems(es.rest)
  }

  predicate LegalMembers(ms: Members) {
    ms.Member? ==>
      && Blanks(ms.before) && LegalChars(ms.key) && Blanks(ms.afterKey)
      && Blanks(ms.beforeValue) && Legal(ms.value) && Blanks(ms.after) && LegalMembers(ms.rest)
  }

  /** A text as the reader takes it: there may be more commas and colons wherever there may be
      white space, and either bracket closes a container. */
  predicate Readable(v: Value) {
    match v
    case Number(_, digits) => LegalDigits(digits)
    case String(chars) => LegalChars(chars)
    case Array(gap, elems, close) => Separators(gap) && ReadableElems(elems) && close in {93, 125}
    case Object(gap, members, close) => Separators(gap) && ReadableMembers(members) && close in {93, 125}
    case _ => true
  }

  predicate ReadableElems(es: Elems) {
    es.Elem? ==> Separators(es.before) && Readable(es.value) && Separators(es.after) && ReadableElems(es.rest)
  }

  predicate ReadableMembers(ms: Members) {
    ms.Member? ==>
      && Separators(ms.before) && LegalChars(ms.key) && Separators(ms.afterKey)
      && Separators(ms.beforeValue) && Readable(ms.value) && Separators(ms.after) && ReadableMembers(ms.rest)
  }

  lemma BlanksSeparate(w: seq<byte>)
    requires Blanks(w)
    ensures Separators(w)
  {
    forall i | 0 <= i < |w| ensures Separator(w[i]) {
      assert Blank(w[i]);
    }
  }

  lemma {:induction false} LegalIsReadable(v: Value)
    requires Legal(v)
    ensures Readable(v)
  {
    hide Blanks, Separators;
    match v
    case Array(gap, elems, _) =>
      BlanksSeparate(gap);
      LegalElemsReadable(elems);
    case Object(gap, members, _) =>
      BlanksSeparate(gap);
      LegalMembersReadable(members);
    case _ =>
  }

  lemma {:induction false} LegalElemsReadable(es: Elems)
    requires LegalElems(es)
    ensures ReadableElems(es)
  {
    hide Blanks, Separators;
    if es.Elem? {
      BlanksSeparate(es.before);
      BlanksSeparate(es.after);
      LegalIsReadable(es.value);
      LegalElemsReadable(es.rest);
    }
  }

  lemma {:induction false} LegalMembersReadable(ms: Members)
    requires LegalMembers(ms)
    ensures ReadableMembers(ms)
  {
    hide Blanks, Separators;
    if ms.Member? {
      BlanksSeparate(ms.before);
      BlanksSeparate(ms.afterKey);
      BlanksSeparate(ms.beforeValue);
      BlanksSeparate(ms.after);
      LegalIsReadable(ms.value);
      LegalMembersReadable(ms.rest);
    }
  }

  function CharText(c: Char): seq<byte> {
    match c
    case Plain(b) => [b]
    case Escaped(code) => [BACKSLASH, code]
    case Unicode(d) => [BACKSLASH, LOWER_U] + d
  }

  function CharsText(cs: seq<Char>): seq<byte> {
    if cs == [] then [] else CharText(cs[0]) + CharsText(cs[1..])
  }

  const NULL_TEXT: seq<byte> := [110, 117, 108, 108]
  const FALSE_TEXT: seq<byte> := [102, 97, 108, 115, 101]
  const TRUE_TEXT: seq<byte> := [116, 114, 117, 101]

  function StringText(cs: seq<Char>): seq<byte> {
    [QUOTE] + CharsText(cs) + [QUOTE]
  }

  function NumberText(negative: bool, digits: seq<byte>): seq<byte> {
    (if negative then [MINUS] else []) + digits
  }

  function Text(v: Value): seq<byte> {
    match v
    case NullText => NULL_TEXT
    case FalseText => FALSE_TEXT
    case TrueText => TRUE_TEXT
    case Number(negative, digits) => NumberText(negative, digits)
    case String(chars) => StringText(chars)
    case Array(gap, elems, close) => [91] + (gap + (ElemsText(elems) + [close]))
    case Object(gap, members, close) => [123] + (gap + (MembersText(members) + [close]))
  }

  function ElemsText(es: Elems): seq<byte> {
    match es
    case NoElems => []
    case Elem(before, value, after, rest) =>
      before + (Text(value) + (after + ((if rest.NoElems? then [] else [44]) + ElemsText(rest))))
  }

  function MembersText(ms: Members): seq<byte> {
    match ms
    case NoMembers => []
    case Member(before, key, afterKey, beforeValue, value, after, rest) =>
      before + (StringText(key) + ((afterKey + [58] + beforeValue)
      + (Text(value) + (after + ((if rest.NoMembers? then [] else [44]) + MembersText(rest))))))
  }

  // ---- what they stand for ----

  function CharBytes(c: Char): seq<byte>
    requires LegalChar(c)
  {
    match c
    case Plain(b) => [b]
    case Escaped(code) => [ESCAPES[code]]
    case Unicode(d) => Utf8(HexCode(d))
  }

  function CharsBytes(cs: seq<Char>): seq<byte>
    requires LegalChars(cs)
  {
    if cs == [] then [] else CharBytes(cs[0]) + CharsBytes(cs[1..])
  }

  function DigitsValue(ds: seq<byte>): nat
    requires Digits(ds)
  {
    if ds == [] then 0 else 10 * DigitsValue(ds[..|ds| - 1]) + (ds[|ds| - 1] - 48)
  }

  function Power10(k: nat): (p: nat)
    ensures p > 0
  {
    if k == 0 then 1 else 10 * Power10(k - 1)
  }

  /** Each digit stands for itself at its place, counted from the right. */
  lemma {:induction false} DigitsAreDecimal(ds: seq<byte>, k: nat)
    requires Digits(ds) && k < |ds|
    ensures DigitsValue(ds) / Power10(k) % 10 == ds[|ds| - 1 - k] - 48
    decreases |ds|
  {
    var v, d := DigitsValue(ds[..|ds| - 1]), ds[|ds| - 1] - 48;
    assert Digit(ds[|ds| - 1]);
    assert DigitsValue(ds) == 10 * v + d;
    RemainderIs(10 * v + d, 10, v, d);
    if k > 0 {
      var p := Power10(k - 1);
      DigitsAreDecimal(ds[..|ds| - 1], k - 1);
      Tenth(v, d, p);
    }
  }

  lemma Tenth(v: nat, d: nat, p: nat)
    requires p > 0 && d < 10
    ensures (10 * v + d) / (10 * p) == v / p
  {
    var q, r := v / p, v % p;
    assert v == p * q + r;
    assert 10 * (p * q) == (10 * p) * q;
    RemainderIs(10 * v + d, 10 * p, q, 10 * r + d);
  }

  /** No number is as large as the next power of ten. */
  lemma {:induction false} DigitsBounded(ds: seq<byte>)
    requires Digits(ds)
    ensures DigitsValue(ds) < Power10(|ds|)
  {
    if ds != [] {
      assert Digit(ds[|ds| - 1]);
      DigitsBounded(ds[..|ds| - 1]);
    }
  }

  // ---- texts in plain bytes ----

  lemma KnownTexts()
    ensures Text(NullText) == [110, 117, 108, 108] && Text(TrueText) == [116, 114, 117, 101]
    ensures Text(FalseText) == [102, 97, 108, 115, 101]
    ensures Text(Number(true, [52, 50])) == [45, 52, 50] && Text(Number(false, [55])) == [55]
    ensures Text(String([])) == [34, 34]
    ensures Text(Array([32], NoElems, 93)) == [91, 32, 93] && Text(Object([10], NoMembers, 125)) == [123, 10, 125]
  {
  }

  lemma KnownStrings(b: byte, d: seq<byte>)
    ensures Text(String([Plain(b)])) == [34, b, 34]
    ensures Text(String([Escaped(b)])) == [34, 92, b, 34]
    ensures Text(String([Unicode(d)])) == [34, 92, 117] + d + [34]
  {
    OneChar(Plain(b));
    OneChar(Escaped(b));
    OneChar(Unicode(d));
    assert [34] + ([92, 117] + d) + [34] == [34, 92, 117] + d + [34];
  }

  lemma OneChar(c: Char)
    ensures CharsText([c]) == CharText(c)
  {
    assert CharsText([c]) == CharText(c) + CharsText([]);
  }

  lemma KnownArrays(gap: seq<byte>, a: seq<byte>, v: Value, b: seq<byte>, c: seq<byte>, w: Value, d: seq<byte>)
    ensures Text(Array(gap, Elem(a, v, b, NoElems), 93)) == [91] + (gap + ((a + (Text(v) + b)) + [93]))
    ensures Text(Array(gap, Elem(a, v, b, Elem(c, w, d, NoElems)), 93))
            == [91] + (gap + ((a + (Text(v) + (b + ([44] + (c + (Text(w) + d)))))) + [93]))
  {
    var last, one := Elem(c, w, d, NoElems), Elem(a, v, b, NoElems);
    LastElemText(c, w, d);
    LastElemText(a, v, b);
    assert ElemsText(Elem(a, v, b, last)) == a + (Text(v) + (b + ([44] + ElemsText(last))));
  }

  lemma LastElemText(before: seq<byte>, v: Value, after: seq<byte>)
    ensures ElemsText(Elem(before, v, after, NoElems)) == before + (Text(v) + after)
  {
    var nothing: seq<byte> := [];
    assert after + (nothing + ElemsText(NoElems)) == after;
  }

  lemma KnownObjects(gap: seq<byte>, a: seq<byte>, key: seq<Char>, b: seq<byte>, c: seq<byte>, v: Value, d: seq<byte>)
    ensures Text(Object(gap, Member(a, key, b, c, v, d, NoMembers), 125))
            == [123] + (gap + ((a + (([34] + CharsText(key) + [34]) + ((b + [58] + c) + (Text(v) + d)))) + [125]))
  {
    var one := Member(a, key, b, c, v, d, NoMembers);
    assert d + ([] + []) == d;
    assert MembersText(one) == a + (StringText(key) + ((b + [58] + c) + (Text(v) + d)));
  }

  lemma KnownTwoMembers(a: Members, b: Members)
    requires a.Member? && a.rest == b && b.Member?
    ensures MembersText(a)
            == a.before + (StringText(a.key) + ((a.afterKey + [58] + a.beforeValue)
               + (Text(a.value) + (a.after + ([44] + MembersText(b))))))
  {
  }

  lemma KnownMeanings()
    ensures Meaning(NullText) == Leaf(Null) && Meaning(TrueText) == Leaf(Bool(true))
    ensures Meaning(FalseText) == Leaf(Bool(false))
    ensures Meaning(Number(true, [53])) == Leaf(Int(-5)) && Meaning(Number(false, [53])) == Leaf(Int(5))
    ensures forall c: byte :: Blank(c) <==> c == 9 || c == 10 || c == 13 || c == 32
  {
    assert DigitsValue([53]) == 10 * DigitsValue([53][..0]) + 5;
  }

  /** One character of every length in UTF-8. */
  lemma KnownUtf8()
    ensures Utf8(0x24) == [0x24] && Utf8(0xa3) == [0xc2, 0xa3]
    ensures Utf8(0x20ac) == [0xe2, 0x82, 0xac] && Utf8(0x10348) == [0xf0, 0x90, 0x8d, 0x88]
  {
  }

  function Signed(negative: bool, n: int): int { if negative then -n else n }

  function Meaning(v: Value): Json
    requires Readable(v)
  {
    match v
    case NullText => Leaf(Null)
    case FalseText => Leaf(Bool(false))
    case TrueText => Leaf(Bool(true))
    case Number(negative, digits) => Leaf(Int(Signed(negative, DigitsValue(digits))))
    case String(chars) => Leaf(Str(CharsBytes(chars)))
    case Array(_, elems, _) => List(ElemsMeaning(elems))
    case Object(_, members, _) => Dict(MembersMeaning(members, map[]))
  }

  function ElemsMeaning(es: Elems): seq<Json>
    requires ReadableElems(es)
  {
    match es
    case NoElems => []
    case Elem(_, value, _, rest) => [Meaning(value)] + ElemsMeaning(rest)
  }

  /** The members added to the entries `m`; a later member replaces an earlier one. */
  function MembersMeaning(ms: Members, m: map<Scalar, Json>): map<Scalar, Json>
    requires ReadableMembers(ms)
  {
    match ms
    case NoMembers => m
    case Member(_, key, _, _, value, _, rest) => MembersMeaning(rest, m[Str(CharsBytes(key)) := Meaning(value)])
  }

  ghost predicate HasMember(ms: Members, k: Scalar, v: Json)
    requires ReadableMembers(ms)
  {
    ms.Member? && ((k == Str(CharsBytes(ms.key)) && v == Meaning(ms.value)) || HasMember(ms.rest, k, v))
  }

  ghost predicate HasKey(ms: Members, k: Scalar)
    requires ReadableMembers(ms)
  {
    ms.Member? && (k == Str(CharsBytes(ms.key)) || HasKey(ms.rest, k))
  }

  ghost predicate DistinctKeys(ms: Members)
    requires ReadableMembers(ms)
  {
    ms.Member? ==> !HasKey(ms.rest, Str(CharsBytes(ms.key))) && DistinctKeys(ms.rest)
  }

  /** What the last member with the key `k` means. */
  ghost function LastWith(ms: Members, k: Scalar): Option<Json>
    requires ReadableMembers(ms)
  {
    if ms.NoMembers? then None
    else
      var later := LastWith(ms.rest, k);
      if later.Some? then later else if k == Str(CharsBytes(ms.key)) then Some(Meaning(ms.value)) else None
  }

  /** A later member replaces an earlier one with the same key. */
  lemma {:induction false} LastMemberStays(ms: Members, m: map<Scalar, Json>, k: Scalar)
    requires ReadableMembers(ms)
    ensures var r := MembersMeaning(ms, m);
            match LastWith(ms, k)
            case Some(v) => k in r && r[k] == v
            case None => (k in r <==> k in m) && (k in m ==> r[k] == m[k])
  {
    if ms.Member? {
      LastMemberStays(ms.rest, m[Str(CharsBytes(ms.key)) := Meaning(ms.value)], k);
    }
  }

  /** With distinct keys the entries are exactly the members. */
  lemma {:induction false} EntriesAreMembers(ms: Members, m: map<Scalar, Json>, k: Scalar, v: Json)
    requires ReadableMembers(ms) && DistinctKeys(ms) && forall q :: q in m ==> !HasKey(ms, q)
    ensures k in MembersMeaning(ms, m) && MembersMeaning(ms, m)[k] == v <==>
            HasMember(ms, k, v) || (k in m && m[k] == v)
  {
    if ms.Member? {
      var key := Str(CharsBytes(ms.key));
      EntriesAreMembers(ms.rest, m[key := Meaning(ms.value)], k, v);
      if HasMember(ms.rest, k, v) {
        MemberHasKey(ms.rest, k, v);
      }
    }
  }

  lemma {:induction false} MemberHasKey(ms: Members, k: Scalar, v: Json)
    requires ReadableMembers(ms) && HasMember(ms, k, v)
    ensures HasKey(ms, k)
  {
    if HasMember(ms.rest, k, v) {
      MemberHasKey(ms.rest, k, v);
    }
  }

  // ---- UTF-8 ----

  /** `code` in UTF-8 (section 3 of RFC 3629). */
  function Utf8(code: nat): seq<byte>
    requires code < 0x110000
  {
    if code < 0x80 then [code]
    else if code < 0x800 then [0xC0 + code / 0x40, 0x80 + code % 0x40]
    else if code < 0x1_0000 then [0xE0 + code / 0x1000, 0x80 + code / 0x40 % 0x40, 0x80 + code % 0x40]
    else [0xF0 + code / 0x40000, 0x80 + code / 0x1000 % 0x40, 0x80 + code / 0x40 % 0x40, 0x80 + code % 0x40]
  }

  /** Reads one character back from the start of `s`. */
  function Utf8Decode(s: seq<byte>): Option<nat> {
    if |s| >= 1 && s[0] < 0x80 then Some(s[0] as nat)
    else if |s| >= 2 && 0xC0 <= s[0] < 0xE0 then Some(Low(s[0], 0xC0, s[1..2]))
    else if |s| >= 3 && 0xE0 <= s[0] < 0xF0 then Some(Low(s[0], 0xE0, s[1..3]))
    else if |s| >= 4 && 0xF0 <= s[0] < 0xF8 then Some(Low(s[0], 0xF0, s[1..4]))
    else None
  }

  function Low(first: byte, mark: nat, more: seq<byte>): nat
    requires mark <= first
    decreases |more|
  {
    if more == [] then first - mark
    else 0x40 * Low(first, mark, more[..|more| - 1]) + more[|more| - 1] % 0x40
  }

  /** Every character, whatever follows it, is read back from its UTF-8 form. */
  lemma Utf8RoundTrip(code: nat, tail: seq<byte>)
    requires code < 0x110000
    ensures Utf8Decode(Utf8(code) + tail) == Some(code)
  {
    var s := Utf8(code) + tail;
    hide Utf8Decode;
    if code < 0x80 {
      assert s[0] == code;
      OneByte(code, s);
    } else if code < 0x800 {
      TwoBytes(code, s);
    } else if code < 0x1_0000 {
      ThreeBytes(code, s);
    } else {
      FourBytes(code, s);
    }
  }

  lemma OneByte(code: nat, s: seq<byte>)
    requires code < 0x80 && |s| >= 1 && s[0] == code
    ensures Utf8Decode(s) == Some(code)
  {
  }

  lemma TwoBytes(code: nat, s: seq<byte>)
    requires code < 0x800 && |s| >= 2 && s[0] == 0xC0 + code / 0x40 && s[1] == 0x80 + code % 0x40
    ensures Utf8Decode(s) == Some(code)
  {
    assert s[1..2] == [s[1]];
    LowOne(s[0], 0xC0, s[1]);
    SixBits(code);
    hide Low;
  }

  lemma ThreeBytes(code: nat, s: seq<byte>)
    requires code < 0x1_0000 && |s| >= 3 && s[0] == 0xE0 + code / 0x1000
    requires s[1] == 0x80 + code / 0x40 % 0x40 && s[2] == 0x80 + code % 0x40
    ensures Utf8Decode(s) == Some(code)
  {
    assert s[1..3] == [s[1], s[2]];
    LowTwo(s[0], 0xE0, s[1], s[2]);
    SixBits(code);
    SixBits(code / 0x40);
    Shift(code, 0x40);
    hide Low;
  }

  lemma FourBytes(code: nat, s: seq<byte>)
    requires code < 0x110000 && |s| >= 4 && s[0] == 0xF0 + code / 0x40000
    requires s[1] == 0x80 + code / 0x1000 % 0x40 && s[2] == 0x80 + code / 0x40 % 0x40 && s[3] == 0x80 + code % 0x40
    ensures Utf8Decode(s) == Some(code)
  {
    assert s[1..4] == [s[1], s[2], s[3]];
    LowThree(s[0], 0xF0, s[1], s[2], s[3]);
    SixBits(code);
    SixBits(code / 0x40);
    SixBits(code / 0x1000);
    Shift(code, 0x40);
    Shift(code, 0x1000);
    hide Low;
  }

  lemma SixBits(n: nat)
    ensures n == 0x40 * (n / 0x40) + n % 0x40 && (0x80 + n % 0x40) % 0x40 == n % 0x40
  {
  }

  lemma Shift(n: nat, d: nat)
    requires d == 0x40 || d == 0x1000
    ensures n / d / 0x40 == n / (0x40 * d)
  {
  }

  lemma LowOne(first: byte, mark: nat, a: byte)
    requires mark <= first
    ensures Low(first, mark, [a]) == 0x40 * (first - mark) + a % 0x40
  {
    assert [a][..0] == [];
  }

  lemma LowTwo(first: byte, mark: nat, a: byte, b: byte)
    requires mark <= first
    ensures Low(first, mark, [a, b]) == 0x40 * (0x40 * (first - mark) + a % 0x40) + b % 0x40
  {
    assert [a, b][..1] == [a];
    LowOne(first, mark, a);
  }

  lemma LowThree(first: byte, mark: nat, a: byte, b: byte, c: byte)
    requires mark <= first
    ensures Low(first, mark, [a, b, c]) == 0x40 * (0x40 * (0x40 * (first - mark) + a % 0x40) + b % 0x40) + c % 0x40
  {
    assert [a, b, c][..2] == [a, b];
    LowTwo(first, mark, a, b);
  }
}
