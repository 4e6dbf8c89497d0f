/** The command line: parameters separated by spaces, quotes that protect spaces, and `^`
    that protects the next character. */
module CommandLine {
  import opened Basics

  type Text = seq<char>

  datatype Status = Success | InvalidParameter | NotFound

  const ESCAPE: char := '^'
  const QUOTE: char := '"'
  const CLOSERS: Text := [QUOTE]
  const ENDERS: Text := [' ', QUOTE]

  /** The place of the first unprotected character of `list`, or the length. */
  function FindFirst(s: Text, list: Text, escape: Option<char>): (r: nat)
    ensures r <= |s| && (r < |s| ==> s[r] in list)
  {
    if s == [] then 0
    else if Some(s[0]) == escape then
      if |s| == 1 then 1 else 2 + FindFirst(s[2..], list, escape)
    else if s[0] in list then 0
    else 1 + FindFirst(s[1..], list, escape)
  }

  /** The end of the parameter that begins here; nothing when a quote is left open. */
  function FindEnd(s: Text): (r: Option<nat>)
    ensures r.Some? ==> r.value <= |s|
  {
    var first := FindFirst(s, ENDERS, Some(ESCAPE));
    if first == |s| || s[first] == ' ' then Some(first)
    else
      var close := FindFirst(s[first + 1..], CLOSERS, Some(ESCAPE));
      if close == |s| - first - 1 then None
      else Shifted(first + 1 + close + 1, FindEnd(s[first + 1 + close + 1..]))
  }

  /** A place counted from `n` characters further ahead. */
  function Shifted(n: nat, r: Option<nat>): Option<nat> {
    match r
    case None => None
    case Some(k) => Some(n + k)
  }

  /** The parameter without its escape characters and, if wanted, without its quotes. */
  function Unescape(t: Text, strip: bool): Text {
    if t == [] then []
    else if t[0] == ESCAPE then if |t| == 1 then [] else [t[1]] + Unescape(t[2..], strip)
    else if t[0] == QUOTE && strip then Unescape(t[1..], strip)
    else [t[0]] + Unescape(t[1..], strip)
  }

  function SkipSpaces(s: Text): (r: Text)
    ensures |r| <= |s| && (r != [] ==> r[0] != ' ')
  {
    if s != [] && s[0] == ' ' then SkipSpaces(s[1..]) else s
  }

  datatype Next = Next(status: Status, param: Text, rest: Text)

  function GetNext(s: Text, strip: bool): (n: Next)
    ensures n.status == Success ==> |n.rest| < |s|
  {
    var t := SkipSpaces(s);
    if t == [] then Next(InvalidParameter, [], s)
    else match FindEnd(t)
      case None => Next(NotFound, [], s)
      case Some(e) =>
        EndMoves(t);
        Next(Success, Unescape(t[..e], strip), t[e..])
  }

  lemma EndMoves(t: Text)
    requires t != [] && t[0] != ' ' && FindEnd(t).Some?
    ensures FindEnd(t).value > 0
  {
  }

  datatype Parsed = Parsed(status: Status, argv: seq<Text>)

  /** All parameters, up to the first that has no end. */
  function Parse(s: Text, strip: bool): Parsed
    decreases |s|
  {
    if s == [] then Parsed(Success, [])
    else
      var n := GetNext(s, strip);
      if n.status != Success then Parsed(InvalidParameter, [])
      else
        var more := Parse(n.rest, strip);
        Parsed(more.status, [n.param] + more.argv)
  }

  predicate Margin(c: char) { c == ' ' || c == '\t' }

  function TrimLeft(s: Text): Text {
    if s != [] && Margin(s[0]) then TrimLeft(s[1..]) else s
  }

  function TrimRight(s: Text): Text {
    if s != [] && Margin(s[|s| - 1]) then TrimRight(s[..|s| - 1]) else s
  }

  function Trim(s: Text): Text { TrimRight(TrimLeft(s)) }

  /** Trimming takes away spaces and tabs at both ends, all of them and nothing else. */
  lemma TrimMeans(s: Text) returns (before: Text, after: Text)
    ensures s == before + Trim(s) + after
    ensures forall i :: 0 <= i < |before| ==> before[i] == ' ' || before[i] == '\t'
    ensures forall i :: 0 <= i < |after| ==> after[i] == ' ' || after[i] == '\t'
    ensures var t := Trim(s); t != [] ==> t[0] !in {' ', '\t'} && t[|t| - 1] !in {' ', '\t'}
  {
    before := LeftMeans(s);
    after := RightMeans(TrimLeft(s));
    hide TrimLeft, TrimRight;
    assert TrimLeft(s) == Trim(s) + after;
    assert before + (Trim(s) + after) == before + Trim(s) + after;
  }

  lemma {:induction false} LeftMeans(s: Text) returns (before: Text)
    ensures s == before + TrimLeft(s) && (TrimLeft(s) != [] ==> !Margin(TrimLeft(s)[0]))
    ensures forall i :: 0 <= i < |before| ==> Margin(before[i])
  {
    if s != [] && Margin(s[0]) {
      var more := LeftMeans(s[1..]);
      before := [s[0]] + more;
      assert s == [s[0]] + s[1..];
    } else {
      before := [];
    }
  }

  lemma {:induction false} RightMeans(s: Text) returns (after: Text)
    ensures s == TrimRight(s) + after && (TrimRight(s) != [] ==> !Margin(TrimRight(s)[|TrimRight(s)| - 1]))
    ensures TrimRight(s) != [] ==> TrimRight(s)[0] == s[0]
    ensures forall i :: 0 <= i < |after| ==> Margin(after[i])
    decreases |s|
  {
    if s != [] && Margin(s[|s| - 1]) {
      var less := RightMeans(s[..|s| - 1]);
      after := less + [s[|s| - 1]];
      assert s == s[..|s| - 1] + [s[|s| - 1]];
    } else {
      after := [];
    }
  }

  // ---- quoting ----

  /** `^` before every quote and every `^`. */
  function Escaped(a: Text): Text {
    if a == [] then []
    else (if Special(a[0]) then [ESCAPE] else []) + ([a[0]] + Escaped(a[1..]))
  }

  function Quoted(a: Text): Text { [QUOTE] + (Escaped(a) + [QUOTE]) }

  function Joined(args: seq<Text>): Text {
    if args == [] then []
    else Quoted(args[0]) + (if |args| == 1 then [] else [' '] + Joined(args[1..]))
  }

  predicate Special(c: char) { c == QUOTE || c == ESCAPE }

  lemma Cut(a: Text, b: Text, c: Text)
    ensures (a + b) + c == a + (b + c)
  {
  }

  lemma NoText(a: Text)
    ensures [] + a == a && a + [] == a
  {
  }

  lemma EscapedNext(a: Text, rest: Text)
    requires a != []
    ensures Escaped(a) + rest == (if Special(a[0]) then [ESCAPE] else []) + ([a[0]] + (Escaped(a[1..]) + rest))
    ensures |Escaped(a)| == (if Special(a[0]) then 2 else 1) + |Escaped(a[1..])|
  {
    var mark, more := if Special(a[0]) then [ESCAPE] else [], Escaped(a[1..]);
    assert Escaped(a) == mark + ([a[0]] + more);
    hide Escaped;
    Cut(mark, [a[0]] + more, rest);
    Cut([a[0]], more, rest);
  }

  /** A protected character is passed over; so is one that is not looked for. */
  lemma FindPasses(c: char, more: Text)
    ensures FindFirst([ESCAPE] + ([c] + more), CLOSERS, Some(ESCAPE)) == 2 + FindFirst(more, CLOSERS, Some(ESCAPE))
    ensures !Special(c) ==>
              FindFirst([] + ([c] + more), CLOSERS, Some(ESCAPE)) == 1 + FindFirst(more, CLOSERS, Some(ESCAPE))
  {
    assert ([ESCAPE] + ([c] + more))[2..] == more;
    assert ([] + ([c] + more))[1..] == more;
  }

  /** The closing quote is found behind an escaped text, not in it. */
  lemma {:induction false} EscapedPassed(a: Text, rest: Text)
    ensures FindFirst(Escaped(a) + ([QUOTE] + rest), CLOSERS, Some(ESCAPE)) == |Escaped(a)|
  {
    if a == [] {
      assert Escaped(a) + ([QUOTE] + rest) == [QUOTE] + rest;
    } else {
      EscapedPassed(a[1..], rest);
      EscapedNext(a, [QUOTE] + rest);
      FindPasses(a[0], Escaped(a[1..]) + ([QUOTE] + rest));
      hide Escaped, FindFirst;
    }
  }

  lemma UnescapeStep(c: char, more: Text)
    ensures Unescape([ESCAPE] + ([c] + more), true) == [c] + Unescape(more, true)
    ensures !Special(c) ==> Unescape([] + ([c] + more), true) == [c] + Unescape(more, true)
  {
    assert ([ESCAPE] + ([c] + more))[2..] == more;
    assert ([] + ([c] + more))[1..] == more;
  }

  /** Unescaping undoes escaping. */
  lemma {:induction false} UnescapeEscaped(a: Text, rest: Text)
    ensures Unescape(Escaped(a) + rest, true) == a + Unescape(rest, true)
  {
    if a == [] {
      NoText(rest);
      NoText(Unescape(rest, true));
    } else {
      UnescapeEscaped(a[1..], rest);
      EscapedNext(a, rest);
      UnescapeStep(a[0], Escaped(a[1..]) + rest);
      hide Escaped, Unescape;
      assert a == [a[0]] + a[1..];
      Cut([a[0]], a[1..], Unescape(rest, true));
    }
  }

  /** A parameter that begins with a quote goes on behind the closing one. */
  lemma EndOfQuoted(body: Text, close: nat)
    requires FindFirst(body, CLOSERS, Some(ESCAPE)) == close < |body|
    requires close + 1 == |body| || body[close + 1] == ' '
    ensures FindEnd([QUOTE] + body) == Some(close + 2)
  {
    hide FindFirst, FindEnd;
    var s := [QUOTE] + body;
    EndsAtOnce(body[close + 1..]);
    StopsAtOnce(s);
    BehindQuote(body, close);
    EndUnfolds(s, close);
  }

  lemma BehindQuote(body: Text, close: nat)
    requires close < |body|
    ensures ([QUOTE] + body)[1..] == body && ([QUOTE] + body)[close + 2..] == body[close + 1..]
  {
  }

  lemma EndUnfolds(s: Text, close: nat)
    requires s != [] && s[0] == QUOTE && FindFirst(s, ENDERS, Some(ESCAPE)) == 0
    requires FindFirst(s[1..], CLOSERS, Some(ESCAPE)) == close < |s| - 1 && FindEnd(s[close + 2..]) == Some(0)
    ensures FindEnd(s) == Some(close + 2)
  {
    hide FindFirst;
  }

  lemma StopsAtOnce(s: Text)
    requires s == [] || s[0] in ENDERS
    ensures FindFirst(s, ENDERS, Some(ESCAPE)) == 0
  {
  }

  lemma EndsAtOnce(s: Text)
    requires s == [] || s[0] == ' '
    ensures FindEnd(s) == Some(0)
  {
    StopsAtOnce(s);
  }

  /** A quoted parameter ends with its closing quote. */
  lemma QuotedEnds(a: Text, rest: Text)
    requires rest == [] || rest[0] == ' '
    ensures FindEnd(Quoted(a) + rest) == Some(|Quoted(a)|)
  {
    hide FindEnd, FindFirst, Escaped;
    var body := Escaped(a) + ([QUOTE] + rest);
    assert Quoted(a) + rest == [QUOTE] + body;
    EscapedPassed(a, rest);
    EndOfQuoted(body, |Escaped(a)|);
  }

  lemma QuotedBack(a: Text)
    ensures Unescape(Quoted(a), true) == a
  {
    UnescapeEscaped(a, [QUOTE]);
    assert [QUOTE][1..] == [] && Quoted(a)[1..] == Escaped(a) + [QUOTE];
    assert Unescape([QUOTE], true) == Unescape([], true) == [];
    assert Unescape(Quoted(a), true) == Unescape(Escaped(a) + [QUOTE], true);
    assert a + [] == a;
  }

  /** Parsing undoes quoting, for every list of arguments. */
  lemma {:induction false} ParseJoined(args: seq<Text>)
    ensures Parse(Joined(args), true) == Parsed(Success, args)
    decreases |args|
  {
    hide Quoted, FindEnd, Unescape, Parse;
    if args == [] {
      NothingParsed();
    } else {
      var rest := if |args| == 1 then [] else [' '] + Joined(args[1..]);
      QuotedEnds(args[0], rest);
      QuotedBack(args[0]);
      QuotedShape(args[0]);
      QuotedIsNext(args[0], Quoted(args[0]), rest);
      ParseJoined(args[1..]);
      assert args == [args[0]] + args[1..];
      if |args| > 1 {
        JoinedShape(args[1..]);
        SpaceBefore(Joined(args[1..]));
      }
    }
  }

  lemma NothingParsed()
    ensures Parse([], true) == Parsed(Success, [])
  {
  }

  lemma QuotedIsNext(a: Text, q: Text, rest: Text)
    requires q != [] && q[0] == QUOTE && FindEnd(q + rest) == Some(|q|) && Unescape(q, true) == a
    ensures Parse(q + rest, true) == Parsed(Parse(rest, true).status, [a] + Parse(rest, true).argv)
  {
    hide FindEnd, Unescape;
    var s := q + rest;
    assert SkipSpaces(s) == s && s[..|q|] == q && s[|q|..] == rest;
    assert GetNext(s, true) == Next(Success, a, rest);
  }

  lemma QuotedShape(a: Text)
    ensures |Quoted(a)| >= 2 && Quoted(a)[0] == QUOTE && Quoted(a)[|Quoted(a)| - 1] == QUOTE
  {
  }

  lemma SpaceBefore(s: Text)
    requires s != []
    ensures Parse([' '] + s, true) == Parse(s, true)
  {
    assert ([' '] + s)[1..] == s;
    assert SkipSpaces([' '] + s) == SkipSpaces(s);
  }

  /** Quotes at both ends keep the text from being trimmed. */
  lemma JoinedNotTrimmed(args: seq<Text>)
    ensures Trim(Joined(args)) == Joined(args)
  {
    if args != [] {
      JoinedShape(args);
    }
  }

  lemma {:induction false} JoinedShape(args: seq<Text>)
    requires args != []
    ensures Joined(args) != [] && Joined(args)[0] == QUOTE && Joined(args)[|Joined(args)| - 1] == QUOTE
  {
    QuotedShape(args[0]);
    if |args| > 1 {
      JoinedShape(args[1..]);
    }
  }

  /** Stripping quotes or not, the same parameters are found. */
  lemma {:induction false} PassesAgree(s: Text)
    ensures Parse(s, true).status == Parse(s, false).status
    ensures |Parse(s, true).argv| == |Parse(s, false).argv|
    decreases |s|
  {
    hide Unescape, FindEnd;
    if s != [] && GetNext(s, true).status == Success {
      PassesAgree(GetNext(s, true).rest);
    }
  }

  // ---- the program's functions ----

  method FindFirstCharacter(s: Text, list: Text, escape: Option<char>) returns (at: nat)
    ensures at == FindFirst(s, list, escape)
  {
    var walk := 0;
    while walk < |s|
      invariant walk <= |s| ==> FindFirst(s, list, escape) == walk + FindFirst(s[walk..], list, escape)
      invariant walk > |s| ==> FindFirst(s, list, escape) == |s|
    {
      if Some(s[walk]) == escape {
        assert walk + 2 <= |s| ==> s[walk..][2..] == s[walk + 2..];
        walk := walk + 2;
        continue;
      }
      assert s[walk..][1..] == s[walk + 1..];
      var found := IsIn(s[walk], list);
      if found {
        return walk;
      }
      walk := walk + 1;
    }
    at := |s|;
  }

  method IsIn(c: char, list: Text) returns (found: bool)
    ensures found <==> c in list
  {
    for k := 0 to |list|
      invariant c !in list[..k]
    {
      if c == list[k] {
        return true;
      }
      assert list[..k + 1] == list[..k] + [list[k]];
    }
    assert list[..|list|] == list;
    found := false;
  }

  method FindEndOfParameter(s: Text) returns (end: Option<nat>)
    ensures end == FindEnd(s)
    decreases |s|
  {
    hide FindFirst;
    var first := FindFirstCharacter(s, ENDERS, Some(ESCAPE));
    if first == |s| {
      return Some(first);
    }
    if s[first] == ' ' {
      return Some(first);
    }
    var close := FindFirstCharacter(s[first + 1..], CLOSERS, Some(ESCAPE));
    if close == |s| - first - 1 {
      return None;
    }
    var more := FindEndOfParameter(s[first + 1 + close + 1..]);
    end := if more.None? then None else Some(first + 1 + close + 1 + more.value);
  }

  const MARKS: Text := [QUOTE, ESCAPE]

  /** Up to the first mark unescaping changes nothing. */
  lemma {:induction false} UnescapePasses(x: Text, strip: bool)
    ensures var k := FindFirst(x, MARKS, None); Unescape(x, strip) == x[..k] + Unescape(x[k..], strip)
  {
    var k := FindFirst(x, MARKS, None);
    if k == 0 {
      assert x[..0] == [] && x[0..] == x;
      NoText(Unescape(x, strip));
    } else {
      UnescapePasses(x[1..], strip);
      PlainStep(x, strip);
      hide Unescape, FindFirst;
      assert x[..k] == [x[0]] + x[1..][..k - 1] && x[k..] == x[1..][k - 1..];
      Cut([x[0]], x[1..][..k - 1], Unescape(x[k..], strip));
    }
  }

  lemma PlainStep(x: Text, strip: bool)
    requires FindFirst(x, MARKS, None) > 0
    ensures x != [] && Unescape(x, strip) == [x[0]] + Unescape(x[1..], strip)
    ensures FindFirst(x[1..], MARKS, None) == FindFirst(x, MARKS, None) - 1
  {
    assert x[0] !in MARKS;
    assert MARKS[0] == QUOTE && MARKS[1] == ESCAPE;
  }

  /** Takes out the unprotected quotes and the escape characters, in place. */
  method RemoveMarks(param: Text, strip: bool) returns (t: Text)
    ensures t == Unescape(param, strip)
  {
    hide Unescape;
    t := param;
    var d: nat := FindFirstCharacter(t, MARKS, None);
    UnescapePasses(t, strip);
    MarksFound(t, d);
    while d < |t|
      invariant 0 <= d <= |t| && t[..d] + Unescape(t[d..], strip) == Unescape(param, strip)
      invariant d < |t| ==> t[d] == QUOTE || t[d] == ESCAPE
      decreases |t| - d
    {
      ghost var before, was := t, d;
      if t[d] == ESCAPE {
        t := t[..d] + t[d + 1..];
        MarkProtects(before, d, strip);
        // Behind a last escape character stands the old end of the text.
        d := if d < |t| then d + 1 else d;
      } else if strip {
        t := t[..d] + t[d + 1..];
        QuoteGoes(before, d);
      } else {
        QuoteStays(t, d);
        d := d + 1;
      }
      var more := FindFirstCharacter(t[d..], MARKS, None);
      UnescapePasses(t[d..], strip);
      MarksFound(t[d..], more);
      Onward(t, d, more, strip);
      d := d + more;
    }
    NothingLeft(t, strip);
    assert t[..d] == t && t[d..] == [];
  }

  lemma MarksFound(x: Text, k: nat)
    requires k == FindFirst(x, MARKS, None)
    ensures k <= |x| && (k < |x| ==> x[k] == QUOTE || x[k] == ESCAPE)
  {
  }

  lemma NothingLeft(t: Text, strip: bool)
    ensures t + Unescape([], strip) == t
  {
  }

  lemma Onward(t: Text, d: nat, more: nat, strip: bool)
    requires d + more <= |t| && Unescape(t[d..], strip) == t[d..][..more] + Unescape(t[d..][more..], strip)
    ensures t[..d] + Unescape(t[d..], strip) == t[..d + more] + Unescape(t[d + more..], strip)
    ensures d + more < |t| ==> t[d + more] == t[d..][more]
  {
    hide Unescape;
    assert t[d..][more..] == t[d + more..] && t[..d + more] == t[..d] + t[d..][..more];
    Cut(t[..d], t[d..][..more], Unescape(t[d + more..], strip));
  }

  lemma MarkProtects(before: Text, d: nat, strip: bool)
    requires d < |before| && before[d] == ESCAPE
    ensures var t := before[..d] + before[d + 1..];
            var e := if d < |t| then d + 1 else d;
            t[..e] + Unescape(t[e..], strip) == before[..d] + Unescape(before[d..], strip)
  {
    var t := before[..d] + before[d + 1..];
    if d < |t| {
      assert before[d..][2..] == before[d + 2..] == t[d + 1..];
      assert t[..d + 1] == before[..d] + [before[d + 1]];
      assert Unescape(before[d..], strip) == [before[d + 1]] + Unescape(before[d + 2..], strip);
      hide Unescape;
      Cut(before[..d], [before[d + 1]], Unescape(t[d + 1..], strip));
    } else {
      assert t[d..] == [] && t[..d] == before[..d];
    }
  }

  lemma QuoteGoes(before: Text, d: nat)
    requires d < |before| && before[d] == QUOTE
    ensures var t := before[..d] + before[d + 1..];
            t[..d] + Unescape(t[d..], true) == before[..d] + Unescape(before[d..], true)
  {
    var t := before[..d] + before[d + 1..];
    assert before[d..][1..] == before[d + 1..] == t[d..] && t[..d] == before[..d];
  }

  lemma QuoteStays(t: Text, d: nat)
    requires d < |t| && t[d] == QUOTE
    ensures t[..d + 1] + Unescape(t[d + 1..], false) == t[..d] + Unescape(t[d..], false)
  {
    assert t[d..][1..] == t[d + 1..] && t[..d + 1] == t[..d] + [t[d]];
    assert Unescape(t[d..], false) == [t[d]] + Unescape(t[d + 1..], false);
    hide Unescape;
    Cut(t[..d], [t[d]], Unescape(t[d + 1..], false));
  }

  /** The next parameter, and the rest of the line. */
  method GetNextParameter(line: Text, strip: bool) returns (status: Status, param: Text, rest: Text)
    ensures Next(status, param, rest) == GetNext(line, strip)
  {
    hide FindEnd, Unescape;
    var walker := line;
    while walker != [] && walker[0] == ' '
      invariant SkipSpaces(walker) == SkipSpaces(line)
      decreases |walker|
    {
      walker := walker[1..];
    }
    if |walker| == 0 {
      return InvalidParameter, [], line;
    }
    var end := FindEndOfParameter(walker);
    if end.None? {
      return NotFound, [], line;
    }
    var t := RemoveMarks(walker[..end.value], strip);
    return Success, t, walker[end.value..];
  }

  method TrimSpaces(s: Text) returns (t: Text)
    ensures t == Trim(s)
  {
    t := s;
    while t != [] && (t[0] == ' ' || t[0] == '\t')
      invariant TrimLeft(t) == TrimLeft(s)
      decreases |t|
    {
      t := t[1..];
    }
    while |t| > 0 && (t[|t| - 1] == ' ' || t[|t| - 1] == '\t')
      invariant TrimRight(t) == Trim(s)
      decreases |t|
    {
      t := t[..|t| - 1];
    }
  }

  /** First the parameters are counted, then they are stored; there is room for all of them. */
  method ParseLoadOptionsToArgs(options: Text, strip: bool) returns (status: Status, argv: seq<Text>)
    ensures Parsed(status, argv) == Parse(Trim(options), strip)
  {
    hide GetNext, Trim;
    var line := TrimSpaces(options);
    var count, walker := 0, line;
    while walker != []
      invariant count + |Parse(walker, true).argv| == |Parse(line, true).argv|
      decreases |walker|
    {
      NextShortens(walker, true);
      var s, p, rest := GetNextParameter(walker, true);
      if s != Success {
        break;
      }
      walker := rest;
      count := count + 1;
    }
    PassesAgree(line);
    var slots := new Text[count](i => []);
    status, argv := Store(line, strip, slots);
  }

  lemma NextShortens(s: Text, strip: bool)
    ensures GetNext(s, strip).status == Success ==> |GetNext(s, strip).rest| < |s|
  {
  }

  method Store(line: Text, strip: bool, slots: array<Text>) returns (status: Status, argv: seq<Text>)
    requires slots.Length >= |Parse(line, strip).argv|
    modifies slots
    ensures Parsed(status, argv) == Parse(line, strip)
  {
    hide GetNext;
    var argc, walker := 0, line;
    while walker != []
      invariant argc + |Parse(walker, strip).argv| == |Parse(line, strip).argv|
      invariant Parse(line, strip) == Parsed(Parse(walker, strip).status, slots[..argc] + Parse(walker, strip).argv)
      decreases |walker|
    {
      NextShortens(walker, strip);
      var s, p, rest := GetNextParameter(walker, strip);
      if s != Success {
        assert slots[..argc] + [] == slots[..argc];
        return InvalidParameter, slots[..argc];
      }
      assert slots[..argc] + ([p] + Parse(rest, strip).argv) == (slots[..argc] + [p]) + Parse(rest, strip).argv;
      slots[argc] := p;
      assert slots[..argc + 1] == slots[..argc] + [p];
      walker := rest;
      argc := argc + 1;
    }
    assert slots[..argc] + [] == slots[..argc];
    return Success, slots[..argc];
  }

  /** Reading a quoted command line gives the arguments back. */
  lemma QuotingUndone(args: seq<Text>)
    ensures Parse(Trim(Joined(args)), true) == Parsed(Success, args)
  {
    JoinedNotTrimmed(args);
    ParseJoined(args);
  }
}
