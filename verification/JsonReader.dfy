/** The JSON reader itself: one loop over the input that keeps a cursor, the containers, the
    stack and the waiting key in its fields. */
module JsonReader {
  import opened Basics
  import opened JsonText
  import opened JsonScan
  import opened JsonMachine
  import opened JsonCorrect

  class Reader {
    var rest: seq<byte>
    var cells: seq<Cell>
    var stack: seq<nat>
    var top: Option<nat>
    var key: Option<Scalar>

    ghost function Now(): State
      reads this
    {
      State(rest, cells, stack, top, key)
    }

    constructor (input: seq<byte>)
      ensures Now() == Start(input)
    {
      rest, cells, stack, top, key := input, [], [], None, None;
    }

    method Advance()
      modifies this`rest
      ensures rest == Next(old(rest))
    {
      rest := if rest == [] then [] else rest[1..];
    }

    method ReadWord(word: seq<byte>) returns (ok: bool)
      modifies this`rest
      ensures ok <==> ScanWord(old(rest), word).Some?
      ensures ok ==> rest == ScanWord(old(rest), word).value
    {
      var k := 0;
      while k < |word|
        invariant k <= |word| && ScanWord(old(rest), word) == ScanWord(rest, word[k..])
      {
        if Cur(rest) != word[k] {
          return false;
        }
        Advance();
        assert word[k..][1..] == word[k + 1..];
        k := k + 1;
      }
      ok := true;
    }

    method ReadHex() returns (num: nat)
      modifies this`rest
      ensures Scan(num, rest) == ScanHex(old(rest), 4) && num < 0x110000
    {
      hide HexShift, HexDigitOf;
      num := 0;
      for i := 0 to 4
        invariant Scan(num, rest) == ScanHex(old(rest), i)
      {
        Advance();
        num := HexShift(num, HexDigitOf(Cur(rest)));
      }
      FourDigitsInRange();
    }

    /** One character of a string, escaped or not. */
    method ReadChar() returns (bs: seq<byte>)
      requires Cur(rest) != 0
      modifies this`rest
      ensures Scan(bs, rest) == ScanChar(old(rest))
    {
      hide ScanHex;
      var c := Cur(rest);
      if c == BACKSLASH {
        Advance();
        c := Cur(rest);
        if c == LOWER_U {
          var num := ReadHex();
          Advance();
          bs := Utf8(num);
          return;
        }
        c := Unescape(c);
      }
      Advance();
      bs := [c];
    }

    method ReadString() returns (ok: bool, bs: seq<byte>)
      modifies this`rest
      ensures ok <==> ScanString(old(rest), []).Some?
      ensures ok ==> ScanString(old(rest), []).value == Scan(bs, rest)
    {
      hide ScanChar;
      bs := [];
      while Cur(rest) != 0 && Cur(rest) != QUOTE
        invariant ScanString(old(rest), []) == ScanString(rest, bs)
        decreases |rest|
      {
        var more := ReadChar();
        bs := bs + more;
      }
      if Cur(rest) == 0 {
        return false, bs;
      }
      Advance();
      ok := true;
    }

    /** The bytes of a number that begins with `first`; `flt` says that it is not an integer. */
    method ReadNumber(first: byte) returns (text: seq<byte>, flt: bool)
      requires !DecimalMark(first)
      modifies this`rest
      ensures Scan(text, rest) == ScanNumber(old(rest), [first]) && (flt <==> HasMark(text))
    {
      text, flt := [first], false;
      while NumberByte(Cur(rest))
        invariant ScanNumber(old(rest), [first]) == ScanNumber(rest, text) && (flt <==> HasMark(text))
        decreases |rest|
      {
        ghost var before := text;
        text := text + [Cur(rest)];
        MarkMore(before, Cur(rest));
        if DecimalMark(Cur(rest)) {
          flt := true;
        }
        Advance();
      }
    }

    /** A token that is a value by itself. */
    method ReadPrimitive(cur: byte) returns (ok: bool, s: Scalar)
      requires cur != 0 && !FillerByte(cur) && cur !in {91, 93, 123, 125}
      modifies this`rest
      ensures Lex([cur] + old(rest)) == if ok then Primitive(s, rest) else Bad
    {
      hide ScanWord, ScanString, ScanNumber, ParseInteger, HasMark;
      Skip(cur, rest);
      s := Null;
      if cur == 110 {
        ok := ReadWord(NULL_TEXT[1..]);
      } else if cur == 102 {
        ok := ReadWord(FALSE_TEXT[1..]);
        s := Bool(false);
      } else if cur == 116 {
        ok := ReadWord(TRUE_TEXT[1..]);
        s := Bool(true);
      } else if cur == QUOTE {
        var bs;
        ok, bs := ReadString();
        s := Str(bs);
      } else if cur == MINUS || Digit(cur) {
        var text, flt := ReadNumber(cur);
        if flt {
          return true, Decimal(text);
        }
        var n := ReadInteger(text);
        ok := n.Some?;
        s := if n.Some? then Int(n.value) else Null;
      } else {
        ok := false;
      }
    }

    /** Puts `ref` into the container that is open. */
    method Add(ref: Ref)
      requires Bound(Now()) && top.Some? && Takes(cells[top.value], key)
      modifies this`cells, this`key
      ensures Now() == Added(old(Now()), ref)
    {
      var t := top.value;
      match cells[t] {
        case ListCell(items) =>
          cells := cells[t := ListCell(items + [ref])];
        case DictCell(entries) =>
          cells := cells[t := DictCell(entries[key.value := ref])];
          key := None;
      }
    }

    method TakePrimitive(s: Scalar)
      requires Bound(Now()) && top.Some?
      modifies this`cells, this`key
      ensures Go(Now()) == StepPrimitive(old(Now()), s)
    {
      if cells[top.value].DictCell? && key.None? {
        key := Some(s);
      } else {
        Add(Atom(s));
      }
    }

    /** Enters a new container; a container cannot be a key. */
    method Enter(empty: Cell) returns (ok: bool)
      requires Bound(Now())
      modifies this`cells, this`key, this`stack, this`top
      ensures StepOpen(old(Now()), empty) == if ok then Go(Now()) else Fail
    {
      hide With;
      var id := |cells|;
      if top.Some? {
        if cells[top.value].DictCell? && key.None? {
          return false;
        }
        Add(Box(id));
        stack := stack + [top.value];
      }
      cells := cells + [empty];
      top := Some(id);
      ok := true;
    }

    method Leave()
      requires top.Some? && stack != []
      modifies this`stack, this`top
      ensures Go(Now()) == StepClose(old(Now()))
    {
      var last := |stack| - 1;
      top := Some(stack[last]);
      stack := stack[..last];
    }

    /** The checks after the last token. */
    method End(root: Option<Ref>) returns (r: Result)
      modifies this`rest
      ensures r == Finish(old(Now()), root)
    {
      while Space(Cur(rest))
        invariant SkipSpace(old(rest)) == SkipSpace(rest)
        decreases |rest|
      {
        Advance();
      }
      if Cur(rest) != 0 || root.None? || stack != [] {
        return SyntaxError;
      }
      r := Loaded(cells, root.value);
    }

    /** Reads the whole input.  All the while the stack is the path of open containers. */
    method Load() returns (r: Result)
      requires OpenPath(Now())
      modifies this
      ensures r == Run(old(Now()))
    {
      hide Lex, StepOpen, Finish, OpenPath, Added;
      PathBound(Now());
      ghost var start := Now();
      while Cur(rest) != 0
        invariant OpenPath(Now()) && Bound(Now()) && Run(Now()) == Run(start)
        decreases |rest|
      {
        ghost var before := Now();
        StepKeeps(before);
        var cur := Cur(rest);
        Advance();
        LexCases(before.rest);
        if FillerByte(cur) {
          continue;
        }
        if cur == 93 || cur == 125 {
          if top.None? {
            return SyntaxError;
          }
          if stack == [] {
            r := End(Some(Box(top.value)));
            return;
          }
          Leave();
        } else if cur == 91 || cur == 123 {
          var ok := Enter(if cur == 91 then ListCell([]) else DictCell(map[]));
          if !ok {
            return SyntaxError;
          }
        } else {
          var ok, s := ReadPrimitive(cur);
          if !ok {
            return SyntaxError;
          }
          if top.None? {
            r := End(Some(Atom(s)));
            return;
          }
          TakePrimitive(s);
        }
      }
      r := End(if top.None? then None else Some(Box(top.value)));
    }
  }

  /** Reads a string; what it stands for is `LoadReadsText`. */
  method Loads(input: seq<byte>) returns (r: Result)
    ensures r == JsonMachine.Load(input)
  {
    var reader := new Reader(input);
    r := reader.Load();
  }

  lemma PathBound(st: State)
    requires OpenPath(st)
    ensures Bound(st)
  {
  }

  lemma StepKeeps(st: State)
    requires OpenPath(st) && Bound(st) && Cur(st.rest) != 0
    ensures Step(st).Go? ==> OpenPath(Step(st).st)
  {
    hide Step, OpenPath;
    if Step(st).Go? {
      StepKeepsPath(st);
    }
  }

  lemma LexCases(rest: seq<byte>)
    requires Cur(rest) != 0
    ensures var c := Cur(rest);
            && rest == [c] + Next(rest)
            && (FillerByte(c) ==> Lex(rest) == Filler(Next(rest)))
            && (c == 93 || c == 125 ==> Lex(rest) == Close(Next(rest)))
            && (c == 91 ==> Lex(rest) == Open(ListCell([]), Next(rest)))
            && (c == 123 ==> Lex(rest) == Open(DictCell(map[]), Next(rest)))
  {
    hide ScanWord, ScanString, ScanNumber, ParseNumber;
  }

  lemma MarkMore(text: seq<byte>, c: byte)
    ensures HasMark(text + [c]) <==> HasMark(text) || DecimalMark(c)
  {
    var more := text + [c];
    if HasMark(text) {
      var i :| 0 <= i < |text| && DecimalMark(text[i]);
      assert more[i] == text[i];
    }
    assert more[|text|] == c;
  }

  /** The value of an integer as it stands in a JSON text: no white space, no plus sign. */
  method ReadInteger(text: seq<byte>) returns (r: Option<int>)
    ensures r == ParseInteger(text)
  {
    var at := 0;
    var negative := text != [] && text[0] == MINUS;
    if negative {
      at := 1;
    }
    ghost var ds := text[at..];
    var from := at;
    var n: int := 0;
    while at < |text| && Digit(text[at])
      invariant from <= at <= |text| && Digits(text[from..at]) && n == DigitsValue(text[from..at])
    {
      MoreDigits(text, from, at);
      n := 10 * n + (text[at] - 48);
      at := at + 1;
    }
    assert text[from..] == ds && text[0..] == text;
    if at == from || at < |text| {
      NotAllDigits(text, from, at);
      return None;
    }
    assert text[from..at] == ds;
    r := Some(if negative then -n else n);
  }

  lemma MoreDigits(text: seq<byte>, from: nat, at: nat)
    requires from <= at < |text| && Digits(text[from..at]) && Digit(text[at])
    ensures Digits(text[from..at + 1])
    ensures DigitsValue(text[from..at + 1]) == 10 * DigitsValue(text[from..at]) + (text[at] - 48)
  {
    var ds := text[from..at + 1];
    assert ds == text[from..at] + [text[at]];
    assert ds[..|ds| - 1] == text[from..at];
  }

  lemma NotAllDigits(text: seq<byte>, from: nat, at: nat)
    requires from <= at <= |text| && (at == from || at < |text|) && (at < |text| ==> !Digit(text[at]))
    ensures text[from..] == [] || !Digits(text[from..])
  {
    if at < |text| {
      assert text[from..][at - from] == text[at];
    }
  }
}
