/** What command lines look like and what they stand for, written down without the parser:
    words of plain, escaped and quoted characters with spaces between them. */
module CommandWords {
  import opened Basics
  import opened CommandLine

  /** A character between quotes, perhaps behind a `^`. */
  datatype Inner = Inner(c: char, escaped: bool)

  datatype Piece = Bare(c: char) | Protected(c: char) | Quote(inner: seq<Inner>)

  type Word = seq<Piece>

  predicate LegalInner(i: Inner) { i.escaped || (i.c != '"' && i.c != '^') }

  predicate LegalPiece(p: Piece) {
    match p
    case Bare(c) => c != ' ' && c != '"' && c != '^'
    case Protected(_) => true
    case Quote(inner) => forall i :: 0 <= i < |inner| ==> LegalInner(inner[i])
  }

  predicate LegalWord(w: Word) {
    w != [] && forall i :: 0 <= i < |w| ==> LegalPiece(w[i])
  }

  function InnerText(inner: seq<Inner>): Text {
    if inner == [] then []
    else (if inner[0].escaped then ['^', inner[0].c] else [inner[0].c]) + InnerText(inner[1..])
  }

  function InnerMeaning(inner: seq<Inner>): Text {
    seq(|inner|, i requires 0 <= i < |inner| => inner[i].c)
  }

  function PieceText(p: Piece): Text {
    match p
    case Bare(c) => [c]
    case Protected(c) => ['^', c]
    case Quote(inner) => ['"'] + InnerText(inner) + ['"']
  }

  /** `strip` says that quotes are dropped. */
  function PieceMeaning(p: Piece, strip: bool): Text {
    match p
    case Bare(c) => [c]
    case Protected(c) => [c]
    case Quote(inner) => if strip then InnerMeaning(inner) else ['"'] + InnerMeaning(inner) + ['"']
  }

  function WordText(w: Word): Text {
    if w == [] then [] else PieceText(w[0]) + WordText(w[1..])
  }

  function WordMeaning(w: Word, strip: bool): Text {
    if w == [] then [] else PieceMeaning(w[0], strip) + WordMeaning(w[1..], strip)
  }

  predicate AllSpaces(gap: Text) {
    forall i :: 0 <= i < |gap| ==> gap[i] == ' '
  }

  /** Words with the gaps before them; only the first gap may be empty. */
  datatype Line = End | More(gap: Text, word: Word, rest: Line)

  predicate LegalLine(l: Line) {
    l.More? ==>
      AllSpaces(l.gap) && LegalWord(l.word) && LegalLine(l.rest) && (l.rest.More? ==> l.rest.gap != [])
  }

  function LineText(l: Line): Text {
    match l
    case End => []
    case More(gap, word, rest) => gap + (WordText(word) + LineText(rest))
  }

  function LineMeaning(l: Line, strip: bool): seq<Text> {
    match l
    case End => []
    case More(_, word, rest) => [WordMeaning(word, strip)] + LineMeaning(rest, strip)
  }

  // ---- the end of a word ----

  /** The search goes on behind what holds no end. */
  lemma EndBehind(head: Text, s: Text)
    requires FindFirst(head + s, ENDERS, Some('^')) == |head| + FindFirst(s, ENDERS, Some('^'))
    ensures FindEnd(head + s) == Shifted(|head|, FindEnd(s))
  {
    EndIs(head + s);
    EndIs(s);
    hide FindFirst, FindEnd;
    var first := FindFirst(s, ENDERS, Some('^'));
    if first < |s| {
      Behind(head, s, first);
      var close := FindFirst(s[first + 1..], CLOSERS, Some('^'));
      if close < |s| - first - 1 {
        Behind(head, s, first + 1 + close);
      }
    }
  }

  lemma {:induction false} EndIs(t: Text)
    ensures var first := FindFirst(t, ENDERS, Some('^'));
            if first == |t| || t[first] == ' ' then FindEnd(t) == Some(first)
            else
              var close := FindFirst(t[first + 1..], CLOSERS, Some('^'));
              FindEnd(t) == if close == |t| - first - 1 then None
                            else Shifted(first + 1 + close + 1, FindEnd(t[first + 1 + close + 1..]))
  {
    hide FindFirst, Shifted;
  }

  lemma Behind(head: Text, s: Text, k: nat)
    requires k < |s|
    ensures (head + s)[|head| + k] == s[k] && (head + s)[|head| + k + 1..] == s[k + 1..]
  {
  }

  lemma FirstPassesBare(c: char, list: Text, s: Text)
    requires c !in list && c != '^'
    ensures FindFirst([c] + s, list, Some('^')) == 1 + FindFirst(s, list, Some('^'))
  {
    assert ([c] + s)[1..] == s;
  }

  lemma FirstPassesEscape(c: char, list: Text, s: Text)
    ensures FindFirst(['^', c] + s, list, Some('^')) == 2 + FindFirst(s, list, Some('^'))
  {
    assert (['^', c] + s)[2..] == s;
  }

  lemma {:induction false} CloseBehindInner(inner: seq<Inner>, s: Text)
    requires forall i :: 0 <= i < |inner| ==> LegalInner(inner[i])
    ensures FindFirst(InnerText(inner) + (['"'] + s), CLOSERS, Some('^')) == |InnerText(inner)|
  {
    var end := ['"'] + s;
    if inner == [] {
      assert [] + end == end;
    } else {
      var c, more := inner[0].c, InnerText(inner[1..]);
      CloseBehindInner(inner[1..], s);
      assert LegalInner(inner[0]);
      hide FindFirst;
      if inner[0].escaped {
        Cut(['^', c], more, end);
        FirstPassesEscape(c, CLOSERS, more + end);
      } else {
        Cut([c], more, end);
        FirstPassesBare(c, CLOSERS, more + end);
      }
    }
  }

  lemma EndBehindQuote(inner: seq<Inner>, s: Text)
    requires forall i :: 0 <= i < |inner| ==> LegalInner(inner[i])
    ensures var head := PieceText(Quote(inner)); FindEnd(head + s) == Shifted(|head|, FindEnd(s))
  {
    var body := InnerText(inner) + (['"'] + s);
    CloseBehindInner(inner, s);
    hide FindFirst, InnerText;
    assert PieceText(Quote(inner)) + s == ['"'] + body;
    StopsAtOnce(['"'] + body);
    BehindQuote(body, |InnerText(inner)|);
    assert body[|InnerText(inner)| + 1..] == s;
    hide PieceText;
    QuoteUnfolds(['"'] + body, |InnerText(inner)|, s);
  }

  lemma QuoteUnfolds(t: Text, close: nat, s: Text)
    requires t != [] && t[0] == '"' && FindFirst(t, ENDERS, Some('^')) == 0
    requires close < |t| - 1 && FindFirst(t[1..], CLOSERS, Some('^')) == close && t[close + 2..] == s
    ensures FindEnd(t) == Shifted(close + 2, FindEnd(s))
  {
    hide FindFirst;
  }

  lemma EndBehindPiece(p: Piece, s: Text)
    requires LegalPiece(p)
    ensures FindEnd(PieceText(p) + s) == Shifted(|PieceText(p)|, FindEnd(s))
  {
    hide FindEnd, FindFirst;
    match p
    case Bare(c) =>
      FirstPassesBare(c, ENDERS, s);
      EndBehind([c], s);
    case Protected(c) =>
      FirstPassesEscape(c, ENDERS, s);
      EndBehind(['^', c], s);
    case Quote(inner) =>
      EndBehindQuote(inner, s);
  }

  /** A word ends where its last piece does, at a space or at the end of the line. */
  lemma {:induction false} WordEnds(w: Word, rest: Text)
    requires forall i :: 0 <= i < |w| ==> LegalPiece(w[i])
    requires rest == [] || rest[0] == ' '
    ensures FindEnd(WordText(w) + rest) == Some(|WordText(w)|)
  {
    hide FindEnd, PieceText, LegalPiece;
    if w == [] {
      NoText(rest);
      EndsAtOnce(rest);
    } else {
      WordEnds(w[1..], rest);
      EndBehindPiece(w[0], WordText(w[1..]) + rest);
      Cut(PieceText(w[0]), WordText(w[1..]), rest);
    }
  }

  // ---- what a word stands for ----

  lemma {:induction false} InnerMeans(inner: seq<Inner>, s: Text, strip: bool)
    requires forall i :: 0 <= i < |inner| ==> LegalInner(inner[i])
    ensures Unescape(InnerText(inner) + s, strip) == InnerMeaning(inner) + Unescape(s, strip)
  {
    if inner == [] {
      NoText(s);
      NoText(Unescape(s, strip));
    } else {
      var c, more := inner[0].c, InnerText(inner[1..]);
      InnerMeans(inner[1..], s, strip);
      assert LegalInner(inner[0]);
      if inner[0].escaped {
        Cut(['^', c], more, s);
        EscapeMeans(c, more + s, strip);
      } else {
        Cut([c], more, s);
        BareMeans(c, more + s, strip);
      }
      hide Unescape;
      assert InnerMeaning(inner) == [c] + InnerMeaning(inner[1..]);
      Cut([c], InnerMeaning(inner[1..]), Unescape(s, strip));
    }
  }

  lemma EscapeMeans(c: char, s: Text, strip: bool)
    ensures Unescape(['^', c] + s, strip) == [c] + Unescape(s, strip)
  {
    assert (['^', c] + s)[2..] == s;
  }

  lemma BareMeans(c: char, s: Text, strip: bool)
    requires c != '"' && c != '^'
    ensures Unescape([c] + s, strip) == [c] + Unescape(s, strip)
  {
    assert ([c] + s)[1..] == s;
  }

  lemma QuoteMarkMeans(s: Text, strip: bool)
    ensures Unescape(['"'] + s, strip) == (if strip then [] else ['"']) + Unescape(s, strip)
  {
    assert (['"'] + s)[1..] == s;
  }

  lemma PieceMeans(p: Piece, s: Text, strip: bool)
    requires LegalPiece(p)
    ensures Unescape(PieceText(p) + s, strip) == PieceMeaning(p, strip) + Unescape(s, strip)
  {
    hide Unescape;
    match p
    case Bare(c) => BareMeans(c, s, strip);
    case Protected(c) => EscapeMeans(c, s, strip);
    case Quote(inner) =>
      var body := InnerText(inner) + (['"'] + s);
      assert PieceText(p) + s == ['"'] + body;
      QuoteMarkMeans(body, strip);
      InnerMeans(inner, ['"'] + s, strip);
      QuoteMarkMeans(s, strip);
      hide PieceText, InnerText, InnerMeaning;
      QuoteParts(InnerMeaning(inner), Unescape(s, strip), strip);
  }

  lemma QuoteParts(m: Text, u: Text, strip: bool)
    ensures (if strip then [] else ['"']) + (m + ((if strip then [] else ['"']) + u))
            == (if strip then m else ['"'] + m + ['"']) + u
  {
  }

  lemma {:induction false} WordMeans(w: Word, strip: bool)
    requires forall i :: 0 <= i < |w| ==> LegalPiece(w[i])
    ensures Unescape(WordText(w), strip) == WordMeaning(w, strip)
  {
    if w != [] {
      WordMeans(w[1..], strip);
      PieceMeans(w[0], WordText(w[1..]), strip);
      hide Unescape;
    }
  }

  // ---- whole lines ----

  lemma {:induction false} GapSkipped(gap: Text, s: Text)
    requires AllSpaces(gap) && (s == [] || s[0] != ' ')
    ensures SkipSpaces(gap + s) == s
  {
    if gap == [] {
      NoText(s);
    } else {
      assert (gap + s)[0] == ' ' && (gap + s)[1..] == gap[1..] + s;
      GapSkipped(gap[1..], s);
    }
  }

  lemma WordStarts(w: Word)
    requires LegalWord(w)
    ensures WordText(w) != [] && WordText(w)[0] != ' '
  {
    assert LegalPiece(w[0]);
  }

  lemma RestStarts(l: Line)
    requires LegalLine(l) && (l.More? ==> l.gap != [])
    ensures LineText(l) == [] || LineText(l)[0] == ' '
  {
    if l.More? {
      assert l.gap[0] == ' ';
    }
  }

  /** Every line of words is parsed into what its words stand for. */
  lemma {:induction false} LineParses(l: Line, strip: bool)
    requires LegalLine(l)
    ensures Parse(LineText(l), strip) == Parsed(Success, LineMeaning(l, strip))
  {
    match l
    case End =>
    case More(gap, word, rest) =>
      LineParses(rest, strip);
      RestStarts(rest);
      WordStarts(word);
      WordEnds(word, LineText(rest));
      WordMeans(word, strip);
      hide WordText, WordMeaning, LegalWord, AllSpaces, Unescape, FindEnd, SkipSpaces;
      var text, more := WordText(word), LineText(rest);
      GapSkipped(gap, text + more);
      NextIs(gap + (text + more), text, more, strip);
  }

  lemma NextIs(s: Text, word: Text, rest: Text, strip: bool)
    requires s != [] && SkipSpaces(s) == word + rest && word != [] && FindEnd(word + rest) == Some(|word|)
    ensures Parse(s, strip) == Parsed(Parse(rest, strip).status, [Unescape(word, strip)] + Parse(rest, strip).argv)
  {
    hide Unescape, FindEnd, SkipSpaces;
    assert (word + rest)[..|word|] == word && (word + rest)[|word|..] == rest;
    assert GetNext(s, strip) == Next(Success, Unescape(word, strip), rest);
  }

  /** A line whose last word has a quote that is never closed is refused; the words before it
      have been found. */
  lemma {:induction false} OpenQuoteRefused(l: Line, gap: Text, word: Word, inner: seq<Inner>, strip: bool)
    requires LegalLine(l) && AllSpaces(gap) && (l.More? ==> gap != [])
    requires forall i :: 0 <= i < |word| ==> LegalPiece(word[i])
    requires forall i :: 0 <= i < |inner| ==> LegalInner(inner[i])
    ensures Parse(LineText(l) + (gap + (WordText(word) + (['"'] + InnerText(inner)))), strip)
            == Parsed(InvalidParameter, LineMeaning(l, strip))
  {
    var open := WordText(word) + (['"'] + InnerText(inner));
    match l
    case End =>
      NoText(gap + open);
      OpenWordHasNoEnd(word, inner);
      OpenStarts(word, inner);
      GapSkipped(gap, open);
      hide FindEnd, SkipSpaces, WordText, InnerText;
      assert gap + open != [];
    case More(g, w, rest) =>
      OpenQuoteRefused(rest, gap, word, inner, strip);
      var more := LineText(rest) + (gap + open);
      assert more != [] && more[0] == ' ' by {
        RestStarts(rest);
        if rest.End? {
          NoText(gap + open);
          assert gap[0] == ' ';
        } else {
          LineNotEmpty(rest);
        }
      }
      WordStarts(w);
      WordEnds(w, more);
      WordMeans(w, strip);
      hide WordText, WordMeaning, LegalWord, AllSpaces, Unescape, FindEnd, SkipSpaces, InnerText;
      GapSkipped(g, WordText(w) + more);
      Cut(g, WordText(w) + LineText(rest), gap + open);
      Cut(WordText(w), LineText(rest), gap + open);
      NextIs(g + (WordText(w) + more), WordText(w), more, strip);
  }

  /** Nothing but spaces is an invalid parameter, and an open quote is an end not found. */
  lemma NextStatus(gap: Text, word: Word, inner: seq<Inner>, strip: bool)
    requires AllSpaces(gap)
    requires forall i :: 0 <= i < |word| ==> LegalPiece(word[i])
    requires forall i :: 0 <= i < |inner| ==> LegalInner(inner[i])
    ensures GetNext(gap, strip) == Next(InvalidParameter, [], gap)
    ensures var s := gap + (WordText(word) + (['"'] + InnerText(inner)));
            GetNext(s, strip) == Next(NotFound, [], s)
  {
    var open := WordText(word) + (['"'] + InnerText(inner));
    OpenWordHasNoEnd(word, inner);
    OpenStarts(word, inner);
    GapSkipped(gap, open);
    GapSkipped(gap, []);
    NoText(gap);
    hide FindEnd, SkipSpaces, WordText, InnerText;
  }

  lemma LineNotEmpty(l: Line)
    requires LegalLine(l) && l.More?
    ensures LineText(l) != []
  {
    WordStarts(l.word);
  }

  lemma OpenStarts(word: Word, inner: seq<Inner>)
    requires forall i :: 0 <= i < |word| ==> LegalPiece(word[i])
    ensures var open := WordText(word) + (['"'] + InnerText(inner)); open != [] && open[0] != ' '
  {
    if word != [] {
      WordStarts(word);
    }
  }

  lemma {:induction false} NeverCloses(inner: seq<Inner>)
    requires forall i :: 0 <= i < |inner| ==> LegalInner(inner[i])
    ensures FindFirst(InnerText(inner), CLOSERS, Some('^')) == |InnerText(inner)|
  {
    if inner != [] {
      var c, more := inner[0].c, InnerText(inner[1..]);
      NeverCloses(inner[1..]);
      assert LegalInner(inner[0]);
      hide FindFirst;
      if inner[0].escaped {
        FirstPassesEscape(c, CLOSERS, more);
      } else {
        FirstPassesBare(c, CLOSERS, more);
      }
    }
  }

  lemma {:induction false} OpenWordHasNoEnd(word: Word, inner: seq<Inner>)
    requires forall i :: 0 <= i < |word| ==> LegalPiece(word[i])
    requires forall i :: 0 <= i < |inner| ==> LegalInner(inner[i])
    ensures FindEnd(WordText(word) + (['"'] + InnerText(inner))) == None
  {
    var tail := ['"'] + InnerText(inner);
    if word == [] {
      NoText(tail);
      StopsAtOnce(tail);
      NeverCloses(inner);
      hide FindFirst, InnerText;
      assert tail[1..] == InnerText(inner);
    } else {
      OpenWordHasNoEnd(word[1..], inner);
      EndBehindPiece(word[0], WordText(word[1..]) + tail);
      hide FindEnd, PieceText, InnerText;
      Cut(PieceText(word[0]), WordText(word[1..]), tail);
    }
  }
}
