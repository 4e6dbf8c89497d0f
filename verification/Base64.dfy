/** The base64 codec (section 4 of RFC 4648, with a newline at the end): an encoder in two
    passes and a decoder that works through a 32-bit shift register. */
module Base64 {
  import opened Basics

  const PAD: byte := 61
  const NEWLINE: byte := 10
  /** Stands for the pad character between the two passes of the encoder. */
  const PAD_VALUE: nat := 64

  // ---- the alphabet ----

  function Sextet(ch: byte): (r: int)
    ensures -1 <= r < 64
  {
    if 65 <= ch <= 90 then ch - 65
    else if 97 <= ch <= 122 then ch - 97 + 26
    else if 48 <= ch <= 57 then ch - 48 + 52
    else if ch == 43 then 62
    else if ch == 47 then 63
    else -1
  }

  function Letter(v: nat): byte
    requires v <= PAD_VALUE
  {
    if v < 26 then v + 65
    else if v < 52 then v + 97 - 26
    else if v < 62 then v + 48 - 52
    else if v == 62 then 43
    else if v == 63 then 47
    else PAD
  }

  lemma LetterSextet(v: nat)
    requires v <= PAD_VALUE
    ensures Sextet(Letter(v)) == if v < 64 then v else -1
    ensures v < 64 ==> Letter(v) != PAD
  {
  }

  // ---- encoding ----

  /** The sextets of the input, three bytes at a time, with pad values to complete the last four. */
  function Values(bs: seq<byte>): (vs: seq<nat>)
    ensures forall i :: 0 <= i < |vs| ==> vs[i] <= PAD_VALUE
    ensures |vs| == (|bs| + 2) / 3 * 4
  {
    if bs == [] then []
    else if |bs| == 1 then [bs[0] / 4, bs[0] % 4 * 16, PAD_VALUE, PAD_VALUE]
    else if |bs| == 2 then [bs[0] / 4, bs[0] % 4 * 16 + bs[1] / 16, bs[1] % 16 * 4, PAD_VALUE]
    else Four(bs[0], bs[1], bs[2]) + Values(bs[3..])
  }

  function Four(a: byte, b: byte, c: byte): (vs: seq<nat>)
    ensures |vs| == 4 && forall i :: 0 <= i < 4 ==> vs[i] < 64
  {
    [a / 4, a % 4 * 16 + b / 16, b % 16 * 4 + c / 64, c % 64]
  }

  function Letters(vs: seq<nat>): (t: seq<byte>)
    requires forall i :: 0 <= i < |vs| ==> vs[i] <= PAD_VALUE
    ensures |t| == |vs| && forall i :: 0 <= i < |vs| ==> t[i] == Letter(vs[i])
  {
    seq(|vs|, i requires 0 <= i < |vs| => Letter(vs[i]))
  }

  function Encode(bs: seq<byte>): seq<byte> { Letters(Values(bs)) + [NEWLINE] }

  // ---- the encoding in plain arithmetic ----

  /** The alphabet (table 1 of RFC 4648). */
  const ALPHABET: string := "ABCDEFGHIJKLMNOPQRSTUVWXYZ" + "abcdefghijklmnopqrstuvwxyz" + "0123456789+/"

  lemma LetterInAlphabet(v: nat)
    requires v < 64
    ensures |ALPHABET| == 64 && Letter(v) == ALPHABET[v] as int
  {
    if v < 26 {
      UpperCase(v);
    } else if v < 52 {
      LowerCase(v - 26);
    } else {
      assert ALPHABET[v] == "0123456789+/"[v - 52];
    }
  }

  lemma UpperCase(k: nat)
    requires k < 26
    ensures "ABCDEFGHIJKLMNOPQRSTUVWXYZ"[k] as int == 65 + k
  {
  }

  lemma LowerCase(k: nat)
    requires k < 26
    ensures "abcdefghijklmnopqrstuvwxyz"[k] as int == 97 + k
  {
  }

  /** Byte `k` of the input; behind its end there are zeros. */
  function ByteOrZero(bs: seq<byte>, k: nat): nat { if k < |bs| then bs[k] else 0 }

  /** Three bytes from `3 * i` on as one number of 24 bits. */
  function Group(bs: seq<byte>, i: nat): nat {
    0x1_0000 * ByteOrZero(bs, 3 * i) + 0x100 * ByteOrZero(bs, 3 * i + 1) + ByteOrZero(bs, 3 * i + 2)
  }

  /** The six bits of a group that its letter `j` stands for. */
  function SixBits(n: nat, j: nat): (v: nat)
    ensures v < 64
  {
    if j == 0 then n / 0x4_0000 % 64 else if j == 1 then n / 0x1000 % 64 else if j == 2 then n / 64 % 64 else n % 64
  }

  /** Every three bytes become four letters for six bits each, the first bits first; a letter
      for which no byte is left is a pad; and a newline comes last. */
  lemma EncodeMeans(bs: seq<byte>, i: nat, j: nat)
    requires 3 * i < |bs| && j < 4
    ensures |Encode(bs)| == (|bs| + 2) / 3 * 4 + 1 && Encode(bs)[|Encode(bs)| - 1] == 10
    ensures 4 * i + j < |Encode(bs)| - 1
    ensures Encode(bs)[4 * i + j]
            == (if j >= 2 && |bs| < 3 * i + j then '=' else ALPHABET[SixBits(Group(bs, i), j)]) as int
  {
    ValuesMeans(bs, i, j);
    LetterInAlphabet(SixBits(Group(bs, i), j));
    hide Values, Letter, SixBits, Group;
  }

  lemma {:induction false} ValuesMeans(bs: seq<byte>, i: nat, j: nat)
    requires 3 * i < |bs| && j < 4
    ensures 4 * i + j < |Values(bs)|
    ensures Values(bs)[4 * i + j] == if j >= 2 && |bs| < 3 * i + j then PAD_VALUE else SixBits(Group(bs, i), j)
    decreases i
  {
    if i == 0 {
      FirstGroup(bs, j);
    } else {
      ValuesMeans(bs[3..], i - 1, j);
      assert Group(bs[3..], i - 1) == Group(bs, i);
      hide Group, SixBits, Four;
    }
  }

  lemma {:induction false} FirstGroup(bs: seq<byte>, j: nat)
    requires 0 < |bs| && j < 4
    ensures j < |Values(bs)|
    ensures Values(bs)[j] == if j >= 2 && |bs| < j then PAD_VALUE else SixBits(Group(bs, 0), j)
  {
    var a, b, c := ByteOrZero(bs, 0), ByteOrZero(bs, 1), ByteOrZero(bs, 2);
    GroupDigits(a, b, c);
    assert Group(bs, 0) == 0x1_0000 * a + 0x100 * b + c;
    hide SixBits, Group;
    FirstValues(bs);
    hide Values;
  }

  lemma {:induction false} FirstValues(bs: seq<byte>)
    requires 0 < |bs|
    ensures var a, b, c := ByteOrZero(bs, 0), ByteOrZero(bs, 1), ByteOrZero(bs, 2);
            && |Values(bs)| >= 4 && Values(bs)[0] == a / 4 && Values(bs)[1] == a % 4 * 16 + b / 16
            && Values(bs)[2] == (if |bs| < 2 then PAD_VALUE else b % 16 * 4 + c / 64)
            && Values(bs)[3] == (if |bs| < 3 then PAD_VALUE else c % 64)
  {
    if |bs| >= 3 {
      NextValues(bs);
      hide Values;
    }
  }

  lemma GroupDigits(a: byte, b: byte, c: byte)
    ensures var n := 0x1_0000 * a + 0x100 * b + c;
            && SixBits(n, 0) == a / 4 && SixBits(n, 1) == a % 4 * 16 + b / 16
            && SixBits(n, 2) == b % 16 * 4 + c / 64 && SixBits(n, 3) == c % 64
  {
    var n := 0x1_0000 * a + 0x100 * b + c;
    var p, q, r := a / 4, b / 16, c / 64;
    var a0, b0, c0 := a % 4, b % 16, c % 64;
    assert a == 4 * p + a0 && b == 16 * q + b0 && c == 64 * r + c0;
    RemainderIs(n, 0x4_0000, p, 0x1_0000 * a0 + 0x100 * b + c);
    RemainderIs(n, 0x1000, 16 * a + q, 0x100 * b0 + c);
    RemainderIs(n, 64, 1024 * a + 4 * b + r, c0);
    RemainderIs(16 * a + q, 64, p, 16 * a0 + q);
    RemainderIs(1024 * a + 4 * b + r, 64, 16 * a + q, 4 * b0 + r);
    RemainderIs(p, 64, 0, p);
  }

  // ---- decoding ----

  const REGISTER: nat := 0x1_0000_0000

  /** `nbits` of the register have not yet been given out. */
  datatype State = State(shift: nat, nbits: nat, hadPad: bool, out: seq<byte>)

  const START: State := State(0, 0, false, [])

  ghost predicate Proper(st: State) { st.nbits in {0, 2, 4, 6} }

  predicate Ends(st: State) { st.nbits == 2 || (st.nbits == 4 && st.hadPad) }

  /** One character of the alphabet; the register keeps 32 bits. */
  function Take(st: State, v: nat): State {
    var shift := (st.shift * 64 + v) % REGISTER;
    if st.nbits + 6 >= 8 then
      State(shift, st.nbits - 2, false, st.out + [shift / Power2(st.nbits - 2) % 256])
    else State(shift, st.nbits + 6, false, st.out)
  }

  function Finish(st: State): Option<seq<byte>> {
    if st.nbits != 0 then None else Some(st.out)
  }

  /** The rest of the text: pads end it where they may, and other characters are skipped. */
  function Run(st: State, text: seq<byte>): Option<seq<byte>>
    decreases |text|
  {
    if text == [] then Finish(st)
    else if text[0] == PAD then
      if Ends(st) then Some(st.out) else Run(st.(hadPad := true), text[1..])
    else if Sextet(text[0]) == -1 then Run(st, text[1..])
    else Run(Take(st, Sextet(text[0])), text[1..])
  }

  function Decode(text: seq<byte>): Option<seq<byte>> { Run(START, text) }

  // ---- which texts decode ----

  /** How many characters of the alphabet a text holds. */
  function LettersIn(text: seq<byte>): nat {
    if text == [] then 0 else LettersIn(text[..|text| - 1]) + (if Sextet(text[|text| - 1]) >= 0 then 1 else 0)
  }

  /** A pad was met since the last letter. */
  predicate PadSince(text: seq<byte>) {
    text != [] && Sextet(text[|text| - 1]) < 0 && (text[|text| - 1] == 61 || PadSince(text[..|text| - 1]))
  }

  /** A pad that ends the text: behind the third letter of four, or behind the second letter
      and another pad. */
  predicate Closes(text: seq<byte>, i: nat) {
    i < |text| && text[i] == 61
    && (LettersIn(text[..i]) % 4 == 3 || (LettersIn(text[..i]) % 4 == 2 && PadSince(text[..i])))
  }

  /** A text is refused exactly if no pad closes it and its letters are no multiple of four. */
  lemma DecodeFailsIff(text: seq<byte>)
    ensures Decode(text) == None <==> LettersIn(text) % 4 != 0 && forall i :: 0 <= i < |text| ==> !Closes(text, i)
  {
    assert text[0..] == text && text[..0] == [];
    RunFailsIff(START, text, 0);
  }

  /** The state agrees with what was read. */
  predicate Tracks(st: State, read: seq<byte>) {
    && st.nbits == (match LettersIn(read) % 4 case 0 => 0 case 1 => 6 case 2 => 4 case _ => 2)
    && (st.hadPad <==> PadSince(read))
  }

  lemma {:induction false} RunFailsIff(st: State, text: seq<byte>, at: nat)
    requires at <= |text| && Tracks(st, text[..at])
    ensures Run(st, text[at..]) == None
            <==> LettersIn(text) % 4 != 0 && forall i :: at <= i < |text| ==> !Closes(text, i)
    decreases |text| - at
  {
    if at == |text| {
      assert text[..at] == text && text[at..] == [];
    } else {
      var c, rest := text[at], text[at + 1..];
      assert text[at..] == [c] + rest && ([c] + rest)[1..] == rest;
      var st' := if c == PAD then st.(hadPad := true) else if Sextet(c) == -1 then st else Take(st, Sextet(c));
      TracksOn(st, text[..at], c);
      assert text[..at + 1] == text[..at] + [c];
      hide Take, Sextet;
      if Closes(text, at) {
        assert Ends(st);
      } else {
        assert c == PAD ==> !Ends(st);
        RunFailsIff(st', text, at + 1);
      }
    }
  }

  lemma TracksOn(st: State, read: seq<byte>, c: byte)
    requires Tracks(st, read)
    ensures var st' := if c == PAD then st.(hadPad := true) else if Sextet(c) == -1 then st else Take(st, Sextet(c));
            Tracks(st', read + [c])
  {
    ReadOneMore(read, c);
    if c != PAD && Sextet(c) != -1 {
      TakeCounts(st, Sextet(c));
    }
    hide Take, Sextet, LettersIn, PadSince;
  }

  lemma ReadOneMore(read: seq<byte>, c: byte)
    ensures var more := read + [c];
            && LettersIn(more) == LettersIn(read) + (if Sextet(c) >= 0 then 1 else 0)
            && (PadSince(more) <==> Sextet(c) < 0 && (c == PAD || PadSince(read)))
            && (c == PAD ==> Sextet(c) < 0)
  {
    var more := read + [c];
    assert more[..|more| - 1] == read && more[|more| - 1] == c;
  }

  lemma TakeCounts(st: State, v: nat)
    ensures var next := Take(st, v);
            !next.hadPad && next.nbits == if st.nbits >= 2 then st.nbits - 2 else st.nbits + 6
  {
  }

  // ---- decoding undoes encoding ----

  /** Characters that are neither of the alphabet nor pads. */
  predicate Noise(ch: byte) { ch != PAD && Sextet(ch) == -1 }

  function Clean(text: seq<byte>): seq<byte> {
    if text == [] then []
    else (if Noise(text[0]) then [] else [text[0]]) + Clean(text[1..])
  }

  /** Noise makes no difference, wherever it stands. */
  lemma {:induction false} NoiseSkipped(st: State, text: seq<byte>)
    ensures Run(st, text) == Run(st, Clean(text))
    decreases |text|
  {
    if text != [] {
      hide Take, Ends;
      var rest := text[1..];
      if Noise(text[0]) {
        assert Clean(text) == Clean(rest);
        NoiseSkipped(st, rest);
      } else {
        assert Clean(text) == [text[0]] + Clean(rest);
        assert Clean(text)[1..] == Clean(rest);
        if text[0] == PAD {
          NoiseSkipped(st.(hadPad := true), rest);
        } else {
          NoiseSkipped(Take(st, Sextet(text[0])), rest);
        }
      }
    }
  }

  /** The bits that wait in the register. */
  function Waiting(st: State): nat { st.shift % Power2(st.nbits) }

  /** A step only ever gives out bits that were still waiting, so it does not matter that
      the register loses its high bits. */
  lemma TakeMeans(st: State, v: nat)
    requires Proper(st) && v < 64
    ensures var next, bits := Take(st, v), Waiting(st) * 64 + v;
            && Proper(next) && !next.hadPad
            && (st.nbits == 0 ==> next.nbits == 6 && next.out == st.out && Waiting(next) == bits)
            && (st.nbits == 6 ==> next.nbits == 4 && next.out == st.out + [bits / 16] && Waiting(next) == bits % 16)
            && (st.nbits == 4 ==> next.nbits == 2 && next.out == st.out + [bits / 4] && Waiting(next) == bits % 4)
            && (st.nbits == 2 ==> next.nbits == 0 && next.out == st.out + [bits] && Waiting(next) == 0)
  {
    SmallPowers();
    RegisterBits(st.shift, v);
    hide Power2;
  }

  lemma SmallPowers()
    ensures Power2(0) == 1 && Power2(2) == 4 && Power2(4) == 16 && Power2(6) == 64
  {
    assert Power2(3) == 8;
  }

  /** The low twelve bits of the register after a step. */
  lemma RegisterLow(s: nat, v: nat) returns (k: nat)
    requires v < 64
    ensures (s * 64 + v) % REGISTER == 4096 * k + (64 * (s % 64) + v)
  {
    var x := s * 64 + v;
    var h, a := x / REGISTER, s / 64;
    assert x == 4096 * a + (64 * (s % 64) + v);
    assert x % REGISTER == x - REGISTER * h;
    k := a - 0x10_0000 * h;
  }

  lemma LowBits(t: nat, k: nat, low: nat)
    requires t == 4096 * k + low && low < 4096
    ensures t / 16 % 256 == low / 16 && t / 4 % 256 == low / 4 % 256
    ensures t % 16 == low % 16 && t % 4 == low % 4 && t % 256 == low % 256 && t % 64 == low % 64
  {
    Sixteenth(t, k, low);
    Fourth(t, k, low);
    Remainders(t, k, low);
  }

  lemma Sixteenth(t: nat, k: nat, low: nat)
    requires t == 4096 * k + low && low < 4096
    ensures t / 16 % 256 == low / 16
  {
    assert t / 16 == 256 * k + low / 16;
  }

  lemma Fourth(t: nat, k: nat, low: nat)
    requires t == 4096 * k + low
    ensures t / 4 % 256 == low / 4 % 256
  {
    assert t / 4 == 256 * (4 * k) + low / 4;
    Wraps(4 * k, low / 4);
  }

  lemma Wraps(k: nat, x: nat)
    ensures (256 * k + x) % 256 == x % 256
  {
  }

  lemma Remainders(t: nat, k: nat, low: nat)
    requires t == 4096 * k + low
    ensures t % 16 == low % 16 && t % 4 == low % 4 && t % 256 == low % 256 && t % 64 == low % 64
  {
    Wraps(16 * k, low);
    Wraps64(64 * k, low);
    Wraps16(256 * k, low);
    Wraps4(1024 * k, low);
  }

  lemma Wraps64(k: nat, x: nat)
    ensures (64 * k + x) % 64 == x % 64
  {
  }

  lemma Wraps16(k: nat, x: nat)
    ensures (16 * k + x) % 16 == x % 16
  {
  }

  lemma Wraps4(k: nat, x: nat)
    ensures (4 * k + x) % 4 == x % 4
  {
  }

  lemma LowOf(b: nat, v: nat)
    requires b < 64 && v < 64
    ensures (64 * b + v) / 4 % 256 == (64 * (b % 16) + v) / 4 && (64 * b + v) % 256 == 64 * (b % 4) + v
    ensures (64 * b + v) % 4 == (64 * (b % 16) + v) % 4
  {
    LowParts(b, b / 16, b % 16, b / 4, b % 4, v);
  }

  lemma LowParts(b: nat, p: nat, c: nat, q: nat, d: nat, v: nat)
    requires b == 16 * p + c == 4 * q + d && c < 16 && d < 4 && v < 64
    ensures (64 * b + v) / 4 % 256 == (64 * c + v) / 4 && (64 * b + v) % 256 == 64 * d + v
    ensures (64 * b + v) % 4 == (64 * c + v) % 4
  {
    Quarter(p, 64 * c + v);
    assert 64 * b + v == 256 * q + (64 * d + v);
    Wraps(q, 64 * d + v);
    Wraps4(256 * p, 64 * c + v);
  }

  lemma Quarter(p: nat, x: nat)
    requires x < 1024
    ensures (1024 * p + x) / 4 % 256 == x / 4
  {
    assert (1024 * p + x) / 4 == 256 * p + x / 4;
    Wraps(p, x / 4);
  }

  lemma RegisterBits(s: nat, v: nat)
    requires v < 64
    ensures var t := (s * 64 + v) % REGISTER;
            && t % 64 == v
            && t / 16 % 256 == (s % 64 * 64 + v) / 16 && t % 16 == (s % 64 * 64 + v) % 16
            && t / 4 % 256 == (s % 16 * 64 + v) / 4 && t % 4 == (s % 16 * 64 + v) % 4
            && t % 256 == s % 4 * 64 + v
  {
    var k := RegisterLow(s, v);
    ModMod(s);
    FromLow((s * 64 + v) % REGISTER, k, s % 64, v);
  }

  lemma ModMod(s: nat)
    ensures s % 64 % 16 == s % 16 && s % 64 % 4 == s % 4
  {
  }

  lemma FromLow(t: nat, k: nat, b: nat, v: nat)
    requires t == 4096 * k + (64 * b + v) && b < 64 && v < 64
    ensures t % 64 == v
    ensures t / 16 % 256 == (b * 64 + v) / 16 && t % 16 == (b * 64 + v) % 16
    ensures t / 4 % 256 == (b % 16 * 64 + v) / 4 && t % 4 == (b % 16 * 64 + v) % 4
    ensures t % 256 == b % 4 * 64 + v
  {
    LowBits(t, k, 64 * b + v);
    LowOf(b, v);
    assert (64 * b + v) % 64 == v;
  }

  // ---- whole groups ----

  lemma TakenLetter(st: State, v: nat, rest: seq<byte>)
    requires v < 64
    ensures Run(st, [Letter(v)] + rest) == Run(Take(st, v), rest)
  {
    LetterSextet(v);
    hide Take, Letter;
    assert ([Letter(v)] + rest)[1..] == rest;
  }

  /** Two letters give one byte back. */
  lemma TwoLetters(st: State, v: nat, w: nat, rest: seq<byte>)
    requires st.nbits == 0 && v < 64 && w < 64
    ensures var next := Take(Take(st, v), w);
            && Run(st, [Letter(v), Letter(w)] + rest) == Run(next, rest)
            && next.nbits == 4 && !next.hadPad && Waiting(next) == w % 16 && next.out == st.out + [4 * v + w / 16]
  {
    SmallPowers();
    assert Waiting(st) == 0;
    TakeMeans(st, v);
    TakeMeans(Take(st, v), w);
    hide Take, Letter, Waiting;
    assert [Letter(v), Letter(w)] + rest == [Letter(v)] + ([Letter(w)] + rest);
    TakenLetter(st, v, [Letter(w)] + rest);
    TakenLetter(Take(st, v), w, rest);
    TwoSextets(v, w);
  }

  lemma TwoSextets(v: nat, w: nat)
    ensures (v * 64 + w) / 16 == 4 * v + w / 16 && (v * 64 + w) % 16 == w % 16
  {
  }

  lemma ThirdLetter(st: State, v: nat, rest: seq<byte>)
    requires st.nbits == 4 && v < 64
    ensures var next := Take(st, v);
            && Run(st, [Letter(v)] + rest) == Run(next, rest)
            && next.nbits == 2 && !next.hadPad && Waiting(next) == v % 4
            && next.out == st.out + [16 * Waiting(st) + v / 4]
  {
    SmallPowers();
    TakeMeans(st, v);
    TakenLetter(st, v, rest);
    hide Take, Letter;
    var b := Waiting(st);
    hide Waiting;
    assert (b * 64 + v) / 4 == 16 * b + v / 4 && (b * 64 + v) % 4 == v % 4;
  }

  lemma FourthLetter(st: State, v: nat, rest: seq<byte>)
    requires st.nbits == 2 && v < 64
    ensures var next := Take(st, v);
            && Run(st, [Letter(v)] + rest) == Run(next, rest)
            && next.nbits == 0 && !next.hadPad && next.out == st.out + [64 * Waiting(st) + v]
  {
    SmallPowers();
    TakeMeans(st, v);
    TakenLetter(st, v, rest);
    hide Take, Letter;
  }

  /** The third and the fourth letter give two bytes. */
  lemma LastLetters(st: State, x: nat, y: nat, rest: seq<byte>)
    requires st.nbits == 4 && x < 64 && y < 64
    ensures var next := Take(Take(st, x), y);
            && Run(st, [Letter(x)] + ([Letter(y)] + rest)) == Run(next, rest)
            && next.nbits == 0 && next.out == st.out + [16 * Waiting(st) + x / 4] + [64 * (x % 4) + y]
  {
    hide Run, Take, Letter, Waiting;
    ThirdLetter(st, x, [Letter(y)] + rest);
    FourthLetter(Take(st, x), y, rest);
  }

  /** Four letters give three bytes back. */
  lemma FourLetters(st: State, a: byte, b: byte, c: byte, rest: seq<byte>) returns (next: State)
    requires st.nbits == 0
    ensures Run(st, Letters(Four(a, b, c)) + rest) == Run(next, rest)
    ensures next.nbits == 0 && next.out == st.out + [a, b, c]
  {
    hide Run, Take, Letter, Waiting, Four, Letters;
    var v, w, x, y := a / 4, a % 4 * 16 + b / 16, b % 16 * 4 + c / 64, c % 64;
    FourText(a, b, c, rest);
    GroupBack(a, b, c);
    TwoLetters(st, v, w, [Letter(x)] + ([Letter(y)] + rest));
    var two := Take(Take(st, v), w);
    LastLetters(two, x, y, rest);
    next := Take(Take(two, x), y);
    ThreeMore(st.out, a, b, c);
  }

  lemma ThreeMore(out: seq<byte>, a: byte, b: byte, c: byte)
    ensures out + [a] + [b] + [c] == out + [a, b, c] && out + [a] + [b] == out + [a, b]
  {
  }

  lemma FourText(a: byte, b: byte, c: byte, rest: seq<byte>)
    ensures var v, w, x, y := a / 4, a % 4 * 16 + b / 16, b % 16 * 4 + c / 64, c % 64;
            Letters(Four(a, b, c)) + rest == [Letter(v), Letter(w)] + ([Letter(x)] + ([Letter(y)] + rest))
  {
    hide Letter;
  }

  lemma GroupBack(a: byte, b: byte, c: byte)
    ensures var v, w, x, y := a / 4, a % 4 * 16 + b / 16, b % 16 * 4 + c / 64, c % 64;
            4 * v + w / 16 == a && 16 * (w % 16) + x / 4 == b && 64 * (x % 4) + y == c
  {
    assert (a % 4 * 16 + b / 16) / 16 == a % 4 && (a % 4 * 16 + b / 16) % 16 == b / 16;
    assert (b % 16 * 4 + c / 64) / 4 == b % 16 && (b % 16 * 4 + c / 64) % 4 == c / 64;
  }

  /** One byte and two pads. */
  lemma LastOne(st: State, a: byte)
    requires st.nbits == 0
    ensures Run(st, Letters(Values([a])) + [NEWLINE]) == Some(st.out + [a])
  {
    var v, w := a / 4, a % 4 * 16;
    hide Take, Waiting;
    assert Letters(Values([a])) + [NEWLINE] == [Letter(v), Letter(w)] + ([PAD] + ([PAD] + [NEWLINE]));
    TwoLetters(st, v, w, [PAD] + ([PAD] + [NEWLINE]));
    var two := Take(Take(st, v), w);
    assert ([PAD] + ([PAD] + [NEWLINE]))[1..] == [PAD] + [NEWLINE];
    assert Run(two.(hadPad := true), [PAD] + [NEWLINE]) == Some(two.out);
    assert w / 16 == a % 4;
  }

  /** Two bytes and one pad. */
  lemma LastTwo(st: State, a: byte, b: byte)
    requires st.nbits == 0
    ensures Run(st, Letters(Values([a, b])) + [NEWLINE]) == Some(st.out + [a, b])
  {
    hide Take, Waiting, Letter, Run;
    var v, w, x := a / 4, a % 4 * 16 + b / 16, b % 16 * 4;
    var end := [PAD] + [NEWLINE];
    TwoText(a, b);
    GroupBack(a, b, 0);
    TwoLetters(st, v, w, [Letter(x)] + end);
    var two := Take(Take(st, v), w);
    ThirdLetter(two, x, end);
    ThreeMore(st.out, a, b, 0);
    PadEnds(Take(two, x), [NEWLINE]);
  }

  lemma PadEnds(st: State, rest: seq<byte>)
    requires Ends(st)
    ensures Run(st, [PAD] + rest) == Some(st.out)
  {
  }

  lemma TwoText(a: byte, b: byte)
    ensures var v, w, x := a / 4, a % 4 * 16 + b / 16, b % 16 * 4;
            Letters(Values([a, b])) + [NEWLINE] == [Letter(v), Letter(w)] + ([Letter(x)] + ([PAD] + [NEWLINE]))
  {
  }

  lemma EncodeNext(bs: seq<byte>)
    requires |bs| >= 3
    ensures Encode(bs) == Letters(Four(bs[0], bs[1], bs[2])) + Encode(bs[3..])
  {
    NextValues(bs);
    hide Letter, Four, Values;
    assert Letters(Values(bs)) == Letters(Four(bs[0], bs[1], bs[2])) + Letters(Values(bs[3..]));
  }

  lemma LastGroup(st: State, bs: seq<byte>)
    requires st.nbits == 0 && |bs| < 3
    ensures Run(st, Encode(bs)) == Some(st.out + bs)
  {
    if bs == [] {
      assert Encode(bs) == [NEWLINE];
      assert [NEWLINE][1..] == [];
      assert Run(st, [NEWLINE]) == Run(st, []);
      assert st.out + [] == st.out;
    } else if |bs| == 1 {
      assert bs == [bs[0]];
      LastOne(st, bs[0]);
      hide Run, Letters, Values;
    } else {
      assert bs == [bs[0], bs[1]];
      LastTwo(st, bs[0], bs[1]);
      hide Run, Letters, Values;
    }
  }

  lemma {:induction false} GroupsBack(st: State, bs: seq<byte>)
    requires st.nbits == 0
    ensures Run(st, Encode(bs)) == Some(st.out + bs)
    decreases |bs|
  {
    if |bs| < 3 {
      LastGroup(st, bs);
    } else {
      var next := FourLetters(st, bs[0], bs[1], bs[2], Encode(bs[3..]));
      GroupsBack(next, bs[3..]);
      EncodeNext(bs);
      hide Run, Letter, Four, Values, Encode;
      assert (st.out + [bs[0], bs[1], bs[2]]) + bs[3..] == st.out + bs;
    }
  }

  /** What was encoded is decoded, for every byte string. */
  lemma DecodeEncode(bs: seq<byte>)
    ensures Decode(Encode(bs)) == Some(bs)
  {
    GroupsBack(START, bs);
    assert START.out + bs == bs;
  }

  /** And so is every text that differs from it only by characters outside the alphabet. */
  lemma DecodeNoisy(text: seq<byte>, bs: seq<byte>)
    requires Clean(text) == Clean(Encode(bs))
    ensures Decode(text) == Some(bs)
  {
    NoiseSkipped(START, text);
    NoiseSkipped(START, Encode(bs));
    DecodeEncode(bs);
  }

  // ---- the two functions ----

  /** Decodes; a text with bits left over and no pads for them is an error. */
  method A2b(text: seq<byte>) returns (r: Option<seq<byte>>)
    ensures r == Decode(text)
  {
    hide Take;
    var shift, nbits, hadPad, out := 0, 0, false, [];
    for i := 0 to |text|
      invariant Run(State(shift, nbits, hadPad, out), text[i..]) == Decode(text)
    {
      assert text[i..][1..] == text[i + 1..];
      if text[i] == PAD {
        if nbits == 2 || (nbits == 4 && hadPad) {
          return Some(out);
        }
        hadPad := true;
      }
      var sextet := Sextet(text[i]);
      if sextet == -1 {
        continue;
      }
      shift, nbits, hadPad, out := Shifted(shift, nbits, hadPad, out, sextet);
    }
    r := if nbits != 0 then None else Some(out);
  }

  /** Takes six bits into the register, and a byte out of it when there is one. */
  method Shifted(shift: nat, nbits: nat, hadPad: bool, out: seq<byte>, sextet: nat)
    returns (shift': nat, nbits': nat, hadPad': bool, out': seq<byte>)
    ensures State(shift', nbits', hadPad', out') == Take(State(shift, nbits, hadPad, out), sextet)
  {
    hadPad', out' := false, out;
    shift' := (shift * 64 + sextet) % REGISTER;
    nbits' := nbits + 6;
    if nbits' >= 8 {
      nbits' := nbits' - 8;
      out' := out' + [shift' / Power2(nbits') % 256];
    }
  }

  /** Encodes: first the sextets, then in the same buffer the letters for them. */
  method B2a(bs: seq<byte>) returns (r: seq<byte>)
    ensures r == Encode(bs)
  {
    var out := Sextets(bs);
    ToLetters(out, bs);
    r := out[..];
  }

  method Sextets(bs: seq<byte>) returns (out: array<byte>)
    ensures fresh(out) && out.Length == |Values(bs)| + 1 && out[..|Values(bs)|] == Values(bs)
  {
    hide Values, Four;
    out := new byte[(|bs| + 2) / 3 * 4 + 1];
    ghost var vs := Values(bs);
    var at, o := 0, 0;
    while |bs| - at >= 3
      invariant at <= |bs| && o + |Values(bs[at..])| == |vs| && vs == out[..o] + Values(bs[at..])
    {
      GroupNext(bs, at, out[..o]);
      WriteFour(out, o, bs[at], bs[at + 1], bs[at + 2]);
      at := at + 3;
      o := o + 4;
    }
    WriteRest(out, o, bs, at);
  }

  method WriteRest(out: array<byte>, o: nat, bs: seq<byte>, at: nat)
    requires at <= |bs| < at + 3 && o + |Values(bs[at..])| + 1 == out.Length
    modifies out
    ensures out[..out.Length - 1] == old(out[..o]) + Values(bs[at..])
  {
    hide Values;
    GroupLast(bs, at);
    if |bs| - at == 2 {
      WriteLast(out, o, bs[at] / 4, bs[at] % 4 * 16 + bs[at + 1] / 16, bs[at + 1] % 16 * 4, PAD_VALUE);
    } else if |bs| - at == 1 {
      WriteLast(out, o, bs[at] / 4, bs[at] % 4 * 16, PAD_VALUE, PAD_VALUE);
    } else {
      assert out[..o] + [] == out[..o];
    }
  }

  lemma GroupNext(bs: seq<byte>, at: nat, done: seq<byte>)
    requires at + 3 <= |bs|
    ensures var four := Four(bs[at], bs[at + 1], bs[at + 2]);
            && done + Values(bs[at..]) == (done + four) + Values(bs[at + 3..])
            && |Values(bs[at..])| == 4 + |Values(bs[at + 3..])|
  {
    assert bs[at..][3..] == bs[at + 3..];
    hide Four;
    NextValues(bs[at..]);
  }

  lemma {:induction false} NextValues(bs: seq<byte>)
    requires |bs| >= 3
    ensures Values(bs) == Four(bs[0], bs[1], bs[2]) + Values(bs[3..])
  {
    hide Four;
  }

  lemma GroupLast(bs: seq<byte>, at: nat)
    requires at <= |bs| < at + 3
    ensures at == |bs| ==> Values(bs[at..]) == []
    ensures at + 1 == |bs| ==> Values(bs[at..]) == [bs[at] / 4, bs[at] % 4 * 16, PAD_VALUE, PAD_VALUE]
    ensures at + 2 == |bs| ==>
              Values(bs[at..]) == [bs[at] / 4, bs[at] % 4 * 16 + bs[at + 1] / 16, bs[at + 1] % 16 * 4, PAD_VALUE]
  {
  }

  method WriteFour(out: array<byte>, o: nat, a: byte, b: byte, c: byte)
    requires o + 4 <= out.Length
    modifies out
    ensures out[..o + 4] == old(out[..o]) + Four(a, b, c)
  {
    WriteLast(out, o, a / 4, a % 4 * 16 + b / 16, b % 16 * 4 + c / 64, c % 64);
  }

  method WriteLast(out: array<byte>, o: nat, v: byte, w: byte, x: byte, y: byte)
    requires o + 4 <= out.Length
    modifies out
    ensures out[..o + 4] == old(out[..o]) + [v, w, x, y]
  {
    out[o], out[o + 1], out[o + 2], out[o + 3] := v, w, x, y;
  }

  /** The second pass, in place, and the newline. */
  method ToLetters(out: array<byte>, bs: seq<byte>)
    requires out.Length == |Values(bs)| + 1 && out[..|Values(bs)|] == Values(bs)
    modifies out
    ensures out[..] == Encode(bs)
  {
    hide Values, Letter;
    ghost var vs := Values(bs);
    var n := out.Length - 1;
    for j := 0 to n
      invariant forall i :: 0 <= i < j ==> out[i] == Letter(vs[i])
      invariant forall i :: j <= i < n ==> out[i] == vs[i]
    {
      out[j] := Ascii(out[j]);
    }
    out[n] := NEWLINE;
    assert out[..n] == Letters(vs);
    assert out[..] == out[..n] + [NEWLINE];
  }

  method Ascii(v: byte) returns (ch: byte)
    requires v <= PAD_VALUE
    ensures ch == Letter(v)
  {
    if v < 26 {
      ch := v + 65;
    } else if v < 52 {
      ch := v + 71;
    } else if v < 62 {
      ch := v - 4;
    } else if v == 62 {
      ch := 43;
    } else if v == 63 {
      ch := 47;
    } else {
      ch := PAD;
    }
  }
}
