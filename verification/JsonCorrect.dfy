/** Every JSON text is read as the tree it stands for. */
module JsonCorrect {
  import opened Basics
  import opened JsonText
  import opened JsonScan
  import opened JsonMachine

  /** The containers reached from `ref`, none of them before `lo`, form the tree `j`. */
  ghost predicate Shows(cells: seq<Cell>, ref: Ref, j: Json, lo: nat)
    decreases j, 0
  {
    match j
    case Leaf(s) => ref == Atom(s)
    case List(items) =>
      && ref.Box? && lo <= ref.id < |cells| && cells[ref.id].ListCell?
      && |cells[ref.id].items| == |items|
      && forall i :: 0 <= i < |items| ==> Shows(cells, cells[ref.id].items[i], items[i], lo)
    case Dict(entries) =>
      && ref.Box? && lo <= ref.id < |cells| && cells[ref.id].DictCell?
      && cells[ref.id].entries.Keys == entries.Keys
      && forall k :: k in entries.Keys ==> Shows(cells, cells[ref.id].entries[k], entries[k], lo)
  }

  ghost predicate ItemsShow(cells: seq<Cell>, items: seq<Ref>, js: seq<Json>, lo: nat) {
    |items| == |js| && forall i :: 0 <= i < |js| ==> Shows(cells, items[i], js[i], lo)
  }

  ghost predicate EntriesShow(cells: seq<Cell>, refs: map<Scalar, Ref>, m: map<Scalar, Json>, lo: nat) {
    refs.Keys == m.Keys && forall k :: k in m.Keys ==> Shows(cells, refs[k], m[k], lo)
  }

  /** A reference shows at most one tree. */
  lemma {:induction false} ShowsOne(cells: seq<Cell>, ref: Ref, a: Json, b: Json, lo: nat)
    requires Shows(cells, ref, a, lo) && Shows(cells, ref, b, lo)
    ensures a == b
    decreases a
  {
    match a
    case Leaf(_) =>
    case List(items) =>
      forall i | 0 <= i < |items| ensures items[i] == b.items[i] {
        ShowsOne(cells, cells[ref.id].items[i], items[i], b.items[i], lo);
      }
      assert items == b.items;
    case Dict(entries) =>
      forall k | k in entries.Keys ensures entries[k] == b.entries[k] {
        ShowsOne(cells, cells[ref.id].entries[k], entries[k], b.entries[k], lo);
      }
      assert entries == b.entries;
  }

  /** From container `from` on, nothing has changed but what was added. */
  ghost predicate Kept(before: seq<Cell>, after: seq<Cell>, from: nat) {
    |before| <= |after| && forall i :: from <= i < |before| ==> after[i] == before[i]
  }

  /** Trees stay what they are while other containers change. */
  lemma {:induction false} ShowsKept(before: seq<Cell>, after: seq<Cell>, ref: Ref, j: Json, lo: nat, low: nat)
    requires Shows(before, ref, j, lo) && Kept(before, after, lo) && low <= lo
    ensures Shows(after, ref, j, low)
    decreases j
  {
    match j
    case Leaf(_) =>
    case List(items) =>
      forall i | 0 <= i < |items| ensures Shows(after, after[ref.id].items[i], items[i], low) {
        ShowsKept(before, after, before[ref.id].items[i], items[i], lo, low);
      }
    case Dict(entries) =>
      forall k | k in entries.Keys ensures Shows(after, after[ref.id].entries[k], entries[k], low) {
        ShowsKept(before, after, before[ref.id].entries[k], entries[k], lo, low);
      }
  }

  lemma ItemsKept(before: seq<Cell>, after: seq<Cell>, items: seq<Ref>, js: seq<Json>, lo: nat, low: nat)
    requires ItemsShow(before, items, js, lo) && Kept(before, after, lo) && low <= lo
    ensures ItemsShow(after, items, js, low)
  {
    hide Shows;
    forall i | 0 <= i < |js| ensures Shows(after, items[i], js[i], low) {
      ShowsKept(before, after, items[i], js[i], lo, low);
    }
  }

  lemma EntriesKept(before: seq<Cell>, after: seq<Cell>, refs: map<Scalar, Ref>, m: map<Scalar, Json>, lo: nat,
      low: nat)
    requires EntriesShow(before, refs, m, lo) && Kept(before, after, lo) && low <= lo
    ensures EntriesShow(after, refs, m, low)
  {
    hide Shows;
    forall k | k in m.Keys ensures Shows(after, refs[k], m[k], low) {
      ShowsKept(before, after, refs[k], m[k], lo, low);
    }
  }

  // ---- runs over parts of a text ----

  lemma Cut(a: seq<byte>, b: seq<byte>, c: seq<byte>)
    ensures (a + b) + c == a + (b + c)
  {
  }

  /** A state inside a container. */
  ghost predicate Inside(st: State) { Bound(st) && st.top.Some? }

  ghost function TopCell(st: State): Cell
    requires Inside(st)
  {
    st.cells[st.top.value]
  }

  lemma {:induction false} FillerRuns(st: State, w: seq<byte>, tail: seq<byte>)
    requires Bound(st) && st.rest == w + tail && forall i :: 0 <= i < |w| ==> FillerByte(w[i])
    ensures Run(st) == Run(st.(rest := tail))
    decreases |w|
  {
    if w == [] {
      assert w + tail == tail;
    } else {
      assert st.rest == [w[0]] + (w[1..] + tail);
      Skip(w[0], w[1..] + tail);
      FillerRuns(st.(rest := w[1..] + tail), w[1..], tail);
    }
  }

  lemma SeparatorsRun(st: State, w: seq<byte>, tail: seq<byte>)
    requires Bound(st) && st.rest == w + tail && Separators(w)
    ensures Run(st) == Run(st.(rest := tail))
  {
    forall i | 0 <= i < |w| ensures FillerByte(w[i]) {
      assert Separator(w[i]);
    }
    hide Separators, FillerByte, Run;
    FillerRuns(st, w, tail);
  }

  /** A token and what it leaves. */
  lemma WordLexes(rest: seq<byte>, word: seq<byte>, tail: seq<byte>)
    requires rest == word + tail
    ensures ScanWord(rest, word) == Some(tail)
    decreases |word|
  {
    if word == [] {
      assert rest == tail;
    } else {
      assert rest == [word[0]] + (word[1..] + tail);
      Skip(word[0], word[1..] + tail);
      WordLexes(word[1..] + tail, word[1..], tail);
    }
  }

  lemma QuoteLexes(rest: seq<byte>)
    requires Cur(rest) == QUOTE
    ensures Lex(rest) == StringToken(ScanString(Next(rest), []))
  {
    hide ScanString, ScanWord, ScanNumber, ParseNumber;
  }

  lemma StringLexes(cs: seq<Char>, tail: seq<byte>)
    requires LegalChars(cs)
    ensures var rest := StringText(cs) + tail;
            Cur(rest) != 0 && Lex(rest) == Primitive(Str(CharsBytes(cs)), tail)
  {
    var rest := StringText(cs) + tail;
    var more := CharsText(cs) + ([QUOTE] + tail);
    assert rest == [QUOTE] + more;
    Skip(QUOTE, more);
    StringScans(cs, [], tail);
    QuoteLexes(rest);
    hide ScanString, CharsText, CharsBytes, LegalChars, Lex;
    assert [] + CharsBytes(cs) == CharsBytes(cs);
  }

  lemma NumberLexes(negative: bool, digits: seq<byte>, tail: seq<byte>)
    requires Readable(Number(negative, digits)) && !NumberByte(Cur(tail))
    ensures var rest := NumberText(negative, digits) + tail;
            Cur(rest) != 0 && Lex(rest) == Primitive(Int(Signed(negative, DigitsValue(digits))), tail)
  {
    NumberScans(negative, digits, tail);
    NumberParses(negative, digits);
    hide ScanNumber, NumberText, ParseNumber, DigitsValue, Signed, Lex;
    FirstOfNumber(NumberText(negative, digits) + tail);
  }

  lemma FirstOfNumber(rest: seq<byte>)
    requires rest != [] && (rest[0] == MINUS || Digit(rest[0]))
    ensures Cur(rest) != 0 && Lex(rest) == NumberToken(ScanNumber(Next(rest), [rest[0]]))
  {
    hide ScanWord, ScanString, ScanNumber, ParseNumber;
  }

  lemma FixedLexes(first: byte, word: seq<byte>, tail: seq<byte>)
    requires first != 0
    ensures var rest := ([first] + word) + tail;
            Cur(rest) == first && Next(rest) == word + tail && ScanWord(word + tail, word) == Some(tail)
  {
    assert ([first] + word) + tail == [first] + (word + tail);
    Skip(first, word + tail);
    WordLexes(word + tail, word, tail);
  }

  ghost predicate PrimitiveText(v: Value) { !v.Array? && !v.Object? }

  /** What follows a value does not look like more of it. */
  ghost predicate Ends(v: Value, tail: seq<byte>) { v.Number? ==> !NumberByte(Cur(tail)) }

  lemma PrimitiveLexes(v: Value, tail: seq<byte>)
    requires Readable(v) && PrimitiveText(v) && Ends(v, tail)
    ensures var rest := Text(v) + tail;
            Meaning(v).Leaf? && Cur(rest) != 0 && Lex(rest) == Primitive(Meaning(v).s, tail)
  {
    hide ScanNumber, ScanString, ParseNumber, DigitsValue, Signed, CharsBytes, StringText, NumberText;
    match v
    case NullText =>
      assert NULL_TEXT == [110] + NULL_TEXT[1..];
      FixedLexes(110, NULL_TEXT[1..], tail);
    case FalseText =>
      assert FALSE_TEXT == [102] + FALSE_TEXT[1..];
      FixedLexes(102, FALSE_TEXT[1..], tail);
    case TrueText =>
      assert TRUE_TEXT == [116] + TRUE_TEXT[1..];
      FixedLexes(116, TRUE_TEXT[1..], tail);
    case Number(negative, digits) =>
      NumberLexes(negative, digits, tail);
    case String(chars) =>
      StringLexes(chars, tail);
  }

  // ---- a value inside a container ----

  /** The run went from `before` to `after` and touched no container but the top one. */
  ghost predicate Through(before: State, after: State, tail: seq<byte>) {
    && Inside(before) && Inside(after) && Run(before) == Run(after)
    && after.rest == tail && after.stack == before.stack && after.top == before.top
    && |before.cells| <= |after.cells|
    && forall i :: 0 <= i < |before.cells| && i != before.top.value ==> after.cells[i] == before.cells[i]
  }

  lemma ThroughBoth(a: State, b: State, c: State, mid: seq<byte>, tail: seq<byte>)
    requires Through(a, b, mid) && Through(b, c, tail)
    ensures Through(a, c, tail)
  {
    hide Run;
  }

  lemma ThroughFiller(st: State, w: seq<byte>, tail: seq<byte>)
    requires Inside(st) && st.rest == w + tail && forall i :: 0 <= i < |w| ==> FillerByte(w[i])
    ensures Through(st, st.(rest := tail), tail)
  {
    hide Run, FillerByte;
    FillerRuns(st, w, tail);
  }

  lemma ThroughFacts(a: State, b: State, tail: seq<byte>)
    requires Through(a, b, tail)
    ensures Inside(a) && Inside(b) && Run(a) == Run(b)
    ensures b.rest == tail && b.stack == a.stack && b.top == a.top && |a.cells| <= |b.cells|
  {
  }

  lemma KeptAbove(a: State, b: State, tail: seq<byte>, lo: nat)
    requires Through(a, b, tail) && a.top.value < lo
    ensures Kept(a.cells, b.cells, lo)
  {
  }

  /** A value may come: it goes to the end of a list, or under a key that is waiting. */
  ghost predicate Expects(st: State) {
    Inside(st) && (TopCell(st).ListCell? <==> st.key.None?)
  }

  /** The top container took `ref`, and no key waits any longer. */
  ghost predicate Took(before: State, after: State, ref: Ref)
    requires Expects(before) && Inside(after)
  {
    TopCell(after) == With(TopCell(before), before.key, ref) && after.key == None
  }

  lemma PrimitiveRuns(st: State, v: Value, tail: seq<byte>) returns (after: State, ref: Ref)
    requires Expects(st) && Readable(v) && PrimitiveText(v) && Ends(v, tail) && st.rest == Text(v) + tail
    ensures Through(st, after, tail) && Took(st, after, ref) && Shows(after.cells, ref, Meaning(v), |st.cells|)
  {
    PrimitiveLexes(v, tail);
    ref := Atom(Meaning(v).s);
    after := Added(st.(rest := tail), ref);
    hide Lex, Text, Meaning, With;
    assert Step(st) == Go(after);
  }

  /** Opening a container: it is attached to the one around it at once, still empty. */
  lemma OpenRuns(st: State, empty: Cell, first: byte, tail: seq<byte>) returns (inner: State)
    requires Expects(st) && st.rest == [first] + tail
    requires (first == 91 && empty == ListCell([])) || (first == 123 && empty == DictCell(map[]))
    ensures Inside(inner) && Run(st) == Run(inner) && Opened(st, inner, empty, tail)
  {
    Skip(first, tail);
    hide With, ScanWord, ScanString, ScanNumber, ParseNumber;
    inner := StepOpen(st.(rest := tail), empty).st;
    assert Lex(st.rest) == Open(empty, tail);
    assert Step(st) == Go(inner);
  }

  ghost predicate Opened(st: State, inner: State, empty: Cell, tail: seq<byte>)
    requires Expects(st)
  {
    && inner.rest == tail && inner.key == None
    && inner.top == Some(|st.cells|) && inner.stack == st.stack + [st.top.value]
    && inner.cells == st.cells[st.top.value := With(TopCell(st), st.key, Box(|st.cells|))] + [empty]
  }

  ghost function Closed(st: State, tail: seq<byte>): State
    requires st.stack != []
  {
    st.(rest := tail, stack := st.stack[..|st.stack| - 1], top := Some(st.stack[|st.stack| - 1]))
  }

  lemma CloseRuns(st: State, close: byte, tail: seq<byte>)
    requires Inside(st) && st.stack != [] && close in {93, 125} && st.rest == [close] + tail
    ensures Inside(Closed(st, tail)) && Run(st) == Run(Closed(st, tail))
  {
    Skip(close, tail);
    hide ScanWord, ScanString, ScanNumber, ParseNumber;
    assert Lex(st.rest) == Close(tail);
    assert Step(st) == Go(Closed(st, tail));
  }

  /** A container that was opened, filled and closed is in its place. */
  lemma ContainerTook(st: State, inner: State, filled: State, empty: Cell, body: seq<byte>, tail: seq<byte>,
      end: seq<byte>)
    requires Expects(st) && Inside(inner) && Run(st) == Run(inner) && Opened(st, inner, empty, body)
    requires Through(inner, filled, end) && filled.key == None
    requires Inside(Closed(filled, tail)) && Run(filled) == Run(Closed(filled, tail))
    ensures Through(st, Closed(filled, tail), tail) && Took(st, Closed(filled, tail), Box(|st.cells|))
  {
    hide Run, With;
    var after := Closed(filled, tail);
    assert filled.stack[..|filled.stack| - 1] == st.stack;
    forall i | 0 <= i < |st.cells| && i != st.top.value ensures after.cells[i] == st.cells[i] {
      assert inner.cells[i] == st.cells[i];
    }
    assert after.cells[st.top.value] == inner.cells[st.top.value];
  }

  /** A container filled with what is between its brackets. */
  ghost predicate Filled(cells: seq<Cell>, v: Value, id: nat)
    requires Readable(v) && !PrimitiveText(v) && id < |cells|
  {
    if v.Array? then cells[id].ListCell? && ItemsShow(cells, cells[id].items, ElemsMeaning(v.elems), id)
    else cells[id].DictCell? && EntriesShow(cells, cells[id].entries, MembersMeaning(v.members, map[]), id)
  }

  lemma FilledShows(cells: seq<Cell>, v: Value, id: nat)
    requires Readable(v) && !PrimitiveText(v) && id < |cells| && Filled(cells, v, id)
    ensures Shows(cells, Box(id), Meaning(v), id)
  {
    var j := Meaning(v);
    if v.Array? {
      assert j.items == ElemsMeaning(v.elems);
    } else {
      assert j.entries == MembersMeaning(v.members, map[]);
    }
  }

  function Bracket(v: Value): byte { if v.Array? then 91 else 123 }

  function Body(v: Value): seq<byte>
    requires !PrimitiveText(v)
  {
    v.gap + (if v.Array? then ElemsText(v.elems) else MembersText(v.members))
  }

  function Empty(v: Value): Cell { if v.Array? then ListCell([]) else DictCell(map[]) }

  lemma ContainerText(v: Value, tail: seq<byte>)
    requires !PrimitiveText(v)
    ensures Text(v) + tail == [Bracket(v)] + (Body(v) + ([v.close] + tail))
  {
  }

  lemma {:induction false} ValueRuns(st: State, v: Value, tail: seq<byte>) returns (after: State, ref: Ref)
    requires Expects(st) && Readable(v) && Ends(v, tail) && st.rest == Text(v) + tail
    ensures Through(st, after, tail) && Took(st, after, ref) && Shows(after.cells, ref, Meaning(v), |st.cells|)
    decreases v, 1
  {
    hide Run, With, Text, Body, Shows, Meaning, Readable, Filled, Through;
    if PrimitiveText(v) {
      after, ref := PrimitiveRuns(st, v, tail);
    } else {
      var end := [v.close] + tail;
      ContainerText(v, tail);
      ReadableCloses(v);
      var inner := OpenRuns(st, Empty(v), Bracket(v), Body(v) + end);
      var filled := BodyRuns(inner, v, end);
      ThroughFacts(inner, filled, end);
      CloseRuns(filled, v.close, tail);
      ContainerTook(st, inner, filled, Empty(v), Body(v) + end, tail, end);
      FilledShows(filled.cells, v, |st.cells|);
      after, ref := Closed(filled, tail), Box(|st.cells|);
    }
  }

  lemma ReadableCloses(v: Value)
    requires Readable(v) && !PrimitiveText(v)
    ensures v.close in {93, 125} && forall tail: seq<byte> :: !NumberByte(Cur([v.close] + tail))
  {
  }

  /** A container just opened. */
  ghost predicate Fresh(st: State, v: Value) {
    && Inside(st) && st.top.value == |st.cells| - 1 && st.key == None
    && TopCell(st) == Empty(v)
  }

  /** Everything between the brackets. */
  lemma {:induction false} BodyRuns(st: State, v: Value, end: seq<byte>) returns (after: State)
    requires Readable(v) && !PrimitiveText(v) && Fresh(st, v) && !NumberByte(Cur(end))
    requires st.rest == Body(v) + end
    ensures Through(st, after, end) && after.key == None && Filled(after.cells, v, st.top.value)
    decreases v, 0
  {
    hide Run, With, Shows, Through;
    if v.Array? {
      after := ElemsBody(st, v.gap, v.elems, end);
    } else {
      after := MembersBody(st, v.gap, v.members, end);
    }
    ThroughFacts(st, after, end);
  }

  lemma {:induction false} ElemsBody(st: State, gap: seq<byte>, elems: Elems, end: seq<byte>) returns (after: State)
    requires Separators(gap) && ReadableElems(elems) && Inside(st) && st.top.value == |st.cells| - 1 && st.key == None
    requires TopCell(st) == ListCell([]) && st.rest == (gap + ElemsText(elems)) + end
    requires !NumberByte(Cur(end))
    ensures Through(st, after, end) && after.key == None && TopCell(after).ListCell?
    ensures ItemsShow(after.cells, TopCell(after).items, ElemsMeaning(elems), st.top.value)
    decreases elems, 4
  {
    hide Run, With, Shows, Through, ElemsText, ElemsMeaning, ReadableElems;
    var t := st.top.value;
    var s := AfterGap(st, gap, ElemsText(elems), end);
    after := ElemsRun(s, elems, [], t + 1, end);
    ThroughBoth(st, s, after, ElemsText(elems) + end, end);
    ThroughFacts(st, after, end);
    assert [] + ElemsMeaning(elems) == ElemsMeaning(elems);
    KeptSame(after.cells, t + 1);
    ItemsKept(after.cells, after.cells, TopCell(after).items, ElemsMeaning(elems), t + 1, t);
  }

  lemma {:induction false} MembersBody(st: State, gap: seq<byte>, members: Members, end: seq<byte>)
      returns (after: State)
    requires Separators(gap) && ReadableMembers(members)
    requires Inside(st) && st.top.value == |st.cells| - 1 && st.key == None
    requires TopCell(st) == DictCell(map[]) && st.rest == (gap + MembersText(members)) + end
    requires !NumberByte(Cur(end))
    ensures Through(st, after, end) && after.key == None && TopCell(after).DictCell?
    ensures EntriesShow(after.cells, TopCell(after).entries, MembersMeaning(members, map[]), st.top.value)
    decreases members, 4
  {
    hide Run, With, Shows, Through, MembersText, MembersMeaning, ReadableMembers;
    var t := st.top.value;
    var s := AfterGap(st, gap, MembersText(members), end);
    after := MembersRun(s, members, map[], t + 1, end);
    ThroughBoth(st, s, after, MembersText(members) + end, end);
    ThroughFacts(st, after, end);
    KeptSame(after.cells, t + 1);
    EntriesKept(after.cells, after.cells, TopCell(after).entries, MembersMeaning(members, map[]), t + 1, t);
  }

  lemma AfterGap(st: State, gap: seq<byte>, text: seq<byte>, end: seq<byte>) returns (s: State)
    requires Inside(st) && Separators(gap) && st.rest == (gap + text) + end
    ensures s == st.(rest := text + end) && Through(st, s, text + end)
  {
    hide Run, Through;
    Cut(gap, text, end);
    SeparatorsFill(gap, []);
    assert gap + [] == gap;
    s := st.(rest := text + end);
    ThroughFiller(st, gap, text + end);
  }

  lemma KeptSame(cells: seq<Cell>, lo: nat)
    ensures Kept(cells, cells, lo)
  {
  }

  /** White space, alone or with a separator after it, is skipped. */
  lemma SeparatorsFill(w: seq<byte>, more: seq<byte>)
    requires Separators(w) && forall i :: 0 <= i < |more| ==> FillerByte(more[i])
    ensures forall i :: 0 <= i < |w + more| ==> FillerByte((w + more)[i])
  {
    forall i | 0 <= i < |w + more| ensures FillerByte((w + more)[i]) {
      assert i < |w| ==> Separator(w[i]);
    }
  }

  function Comma(last: bool): seq<byte> { if last then [] else [44] }

  /** A value is followed by white space, a comma or the closing bracket. */
  lemma GapEnds(v: Value, w: seq<byte>, last: bool, more: seq<byte>)
    requires Separators(w) && (last ==> !NumberByte(Cur(more)))
    ensures Ends(v, (w + Comma(last)) + more)
  {
    var s := (w + Comma(last)) + more;
    if w != [] {
      assert s[0] == w[0] && Separator(w[0]);
    } else if !last {
      assert s[0] == 44;
    } else {
      assert s == more;
    }
  }

  /** One value and the separator after it. */
  lemma {:induction false} ItemRuns(st: State, v: Value, w: seq<byte>, last: bool, more: seq<byte>)
      returns (after: State, ref: Ref)
    requires Expects(st) && Readable(v) && Separators(w) && (last ==> !NumberByte(Cur(more)))
    requires st.rest == Text(v) + ((w + Comma(last)) + more)
    ensures Through(st, after, more) && Took(st, after, ref) && Shows(after.cells, ref, Meaning(v), |st.cells|)
    decreases v, 2
  {
    hide Run, With, Text, Shows, Meaning, Readable, Through, Ends;
    var gap := w + Comma(last);
    GapEnds(v, w, last, more);
    var s;
    s, ref := ValueRuns(st, v, gap + more);
    ThroughFacts(st, s, gap + more);
    SeparatorsFill(w, Comma(last));
    after := s.(rest := more);
    ThroughFiller(s, gap, more);
    ThroughBoth(st, s, after, gap + more, more);
  }

  /** One more item of a list. */
  lemma ItemAdded(a: State, b: State, tail: seq<byte>, ref: Ref, js: seq<Json>, j: Json, lo: nat)
    requires Expects(a) && TopCell(a).ListCell? && a.top.value < lo <= |a.cells|
             && ItemsShow(a.cells, TopCell(a).items, js, lo)
    requires Through(a, b, tail) && Took(a, b, ref) && Shows(b.cells, ref, j, |a.cells|)
    ensures TopCell(b).ListCell? && ItemsShow(b.cells, TopCell(b).items, js + [j], lo)
  {
    KeptAbove(a, b, tail, lo);
    ItemsKept(a.cells, b.cells, TopCell(a).items, js, lo, lo);
    KeptSame(b.cells, |a.cells|);
    ShowsKept(b.cells, b.cells, ref, j, |a.cells|, lo);
    hide Shows, Run, Kept;
  }

  lemma EntryAdded(a: State, b: State, tail: seq<byte>, ref: Ref, m: map<Scalar, Json>, j: Json, lo: nat)
    requires Expects(a) && TopCell(a).DictCell? && a.top.value < lo <= |a.cells|
             && EntriesShow(a.cells, TopCell(a).entries, m, lo)
    requires Through(a, b, tail) && Took(a, b, ref) && Shows(b.cells, ref, j, |a.cells|)
    ensures TopCell(b).DictCell? && EntriesShow(b.cells, TopCell(b).entries, m[a.key.value := j], lo)
  {
    KeptAbove(a, b, tail, lo);
    EntriesKept(a.cells, b.cells, TopCell(a).entries, m, lo, lo);
    KeptSame(b.cells, |a.cells|);
    ShowsKept(b.cells, b.cells, ref, j, |a.cells|, lo);
    hide Shows, Run, Kept;
  }

  lemma ElemsCut(es: Elems, end: seq<byte>)
    requires es.Elem?
    ensures ElemsText(es) + end ==
            es.before + (Text(es.value) + ((es.after + Comma(es.rest.NoElems?)) + (ElemsText(es.rest) + end)))
  {
    hide Text;
    var v, comma, more := Text(es.value), Comma(es.rest.NoElems?), ElemsText(es.rest);
    Cut(es.before, v + (es.after + (comma + more)), end);
    Cut(v, es.after + (comma + more), end);
    Cut(es.after, comma + more, end);
    Cut(comma, more, end);
    Cut(es.after, comma, more + end);
  }

  lemma {:induction false} ElemsRun(st: State, es: Elems, js: seq<Json>, lo: nat, end: seq<byte>)
      returns (after: State)
    requires ReadableElems(es) && Expects(st) && TopCell(st).ListCell?
    requires st.top.value < lo <= |st.cells| && ItemsShow(st.cells, TopCell(st).items, js, lo)
    requires st.rest == ElemsText(es) + end && !NumberByte(Cur(end))
    ensures Through(st, after, end) && after.key == None
    ensures TopCell(after).ListCell? && ItemsShow(after.cells, TopCell(after).items, js + ElemsMeaning(es), lo)
    decreases es, 3
  {
    hide Run, With, Text, Shows, Meaning, Readable, Through;
    match es
    case NoElems =>
      assert [] + end == end && js + [] == js;
      after := st;
      ThroughFiller(st, [], end);
      assert after == st.(rest := end);
    case Elem(before, value, w, rest) =>
      ElemsCut(es, end);
      hide ElemsText;
      var last := rest.NoElems?;
      var more := ElemsText(rest) + end;
      LastElem(rest, end);
      var s1 := st.(rest := Text(value) + ((w + Comma(last)) + more));
      SeparatorsFill(before, []);
      assert before + [] == before;
      ThroughFiller(st, before, s1.rest);
      var s2, ref := ItemRuns(s1, value, w, last, more);
      ThroughFacts(s1, s2, more);
      ItemAdded(s1, s2, more, ref, js, Meaning(value), lo);
      ThroughBoth(st, s1, s2, s1.rest, more);
      hide Took;
      assert (js + [Meaning(value)]) + ElemsMeaning(rest) == js + ElemsMeaning(es);
      after := ElemsRun(s2, rest, js + [Meaning(value)], lo, end);
      ThroughBoth(st, s2, after, more, end);
  }

  lemma LastElem(es: Elems, end: seq<byte>)
    requires !NumberByte(Cur(end))
    ensures es.NoElems? ==> !NumberByte(Cur(ElemsText(es) + end))
  {
    assert es.NoElems? ==> ElemsText(es) + end == end;
  }

  lemma LastMember(ms: Members, end: seq<byte>)
    requires !NumberByte(Cur(end))
    ensures ms.NoMembers? ==> !NumberByte(Cur(MembersText(ms) + end))
  {
    assert ms.NoMembers? ==> MembersText(ms) + end == end;
  }

  function Colon(ms: Members): seq<byte>
    requires ms.Member?
  {
    ms.afterKey + [58] + ms.beforeValue
  }

  lemma MembersCut(ms: Members, end: seq<byte>)
    requires ms.Member?
    ensures MembersText(ms) + end ==
            ms.before + (StringText(ms.key) + (Colon(ms)
            + (Text(ms.value) + ((ms.after + Comma(ms.rest.NoMembers?)) + (MembersText(ms.rest) + end)))))
  {
    hide Text, StringText, Colon;
    var k, c, v := StringText(ms.key), Colon(ms), Text(ms.value);
    var comma, more := Comma(ms.rest.NoMembers?), MembersText(ms.rest);
    MembersTextIs(ms);
    hide MembersText;
    Cut(ms.before, k + (c + (v + (ms.after + (comma + more)))), end);
    Cut(k, c + (v + (ms.after + (comma + more))), end);
    Cut(c, v + (ms.after + (comma + more)), end);
    Cut(v, ms.after + (comma + more), end);
    Cut(ms.after, comma + more, end);
    Cut(comma, more, end);
    Cut(ms.after, comma, more + end);
  }

  lemma MembersTextIs(ms: Members)
    requires ms.Member?
    ensures MembersText(ms) ==
            ms.before + (StringText(ms.key) + (Colon(ms)
            + (Text(ms.value) + (ms.after + (Comma(ms.rest.NoMembers?) + MembersText(ms.rest))))))
  {
    hide Text, StringText;
  }

  lemma ColonFills(ms: Members)
    requires ms.Member? && ReadableMembers(ms)
    ensures forall i :: 0 <= i < |Colon(ms)| ==> FillerByte(Colon(ms)[i])
  {
    var c := Colon(ms);
    hide Readable, LegalChars;
    forall i | 0 <= i < |c| ensures FillerByte(c[i]) {
      var a, b := |ms.afterKey|, |ms.beforeValue|;
      if i < a {
        assert c[i] == ms.afterKey[i] && Separator(c[i]);
      } else if i > a {
        assert c[i] == ms.beforeValue[i - a - 1] && Separator(c[i]);
      }
    }
  }

  /** A key waits until its value comes. */
  lemma KeyRuns(st: State, key: seq<Char>, more: seq<byte>)
    requires Inside(st) && TopCell(st).DictCell? && st.key == None && LegalChars(key)
             && st.rest == StringText(key) + more
    ensures var s := st.(rest := more, key := Some(Str(CharsBytes(key)))); Through(st, s, more) && Expects(s)
  {
    StringLexes(key, more);
    hide Lex, StringText, CharsBytes, LegalChars;
    var s := st.(rest := more, key := Some(Str(CharsBytes(key))));
    assert Step(st) == Go(s);
  }

  lemma {:induction false} MembersRun(st: State, ms: Members, m: map<Scalar, Json>, lo: nat, end: seq<byte>)
      returns (after: State)
    requires ReadableMembers(ms) && Inside(st) && st.key == None && TopCell(st).DictCell?
    requires st.top.value < lo <= |st.cells| && EntriesShow(st.cells, TopCell(st).entries, m, lo)
    requires st.rest == MembersText(ms) + end && !NumberByte(Cur(end))
    ensures Through(st, after, end) && after.key == None
    ensures TopCell(after).DictCell? && EntriesShow(after.cells, TopCell(after).entries, MembersMeaning(ms, m), lo)
    decreases ms, 3
  {
    hide Run, With, Text, Shows, Meaning, Readable, Through, StringText, Colon, CharsBytes, LegalChars;
    match ms
    case NoMembers =>
      assert [] + end == end;
      after := st;
      ThroughFiller(st, [], end);
      assert after == st.(rest := end);
    case Member(before, key, afterKey, beforeValue, value, w, rest) =>
      var last := rest.NoMembers?;
      var more := MembersText(rest) + end;
      var valueOn := Text(value) + ((w + Comma(last)) + more);
      var s3 := MemberStart(st, ms, end, valueOn);
      LastMember(rest, end);
      hide MembersText;
      var s4, ref := ItemRuns(s3, value, w, last, more);
      ThroughFacts(s3, s4, more);
      EntryAdded(s3, s4, more, ref, m, Meaning(value), lo);
      ThroughBoth(st, s3, s4, valueOn, more);
      hide Took;
      after := MembersRun(s4, rest, m[Str(CharsBytes(key)) := Meaning(value)], lo, end);
      ThroughBoth(st, s4, after, more, end);
  }

  /** A member up to its value. */
  lemma MemberStart(st: State, ms: Members, end: seq<byte>, valueOn: seq<byte>) returns (s: State)
    requires ReadableMembers(ms) && ms.Member? && Inside(st) && st.key == None && TopCell(st).DictCell?
    requires st.rest == MembersText(ms) + end
    requires valueOn == Text(ms.value) + ((ms.after + Comma(ms.rest.NoMembers?)) + (MembersText(ms.rest) + end))
    ensures Through(st, s, valueOn) && Expects(s) && s == st.(rest := valueOn, key := Some(Str(CharsBytes(ms.key))))
  {
    hide Run, Text, Readable, Through, StringText, Colon, CharsBytes, LegalChars;
    MembersCut(ms, end);
    ColonFills(ms);
    hide MembersText;
    SeparatorsFill(ms.before, []);
    assert ms.before + [] == ms.before;
    var keyOn := StringText(ms.key) + (Colon(ms) + valueOn);
    ThroughFiller(st, ms.before, keyOn);
    var s1 := st.(rest := keyOn);
    KeyRuns(s1, ms.key, Colon(ms) + valueOn);
    var s2 := s1.(rest := Colon(ms) + valueOn, key := Some(Str(CharsBytes(ms.key))));
    ThroughFiller(s2, Colon(ms), valueOn);
    s := s2.(rest := valueOn);
    ThroughBoth(st, s1, s2, keyOn, Colon(ms) + valueOn);
    ThroughBoth(st, s2, s, Colon(ms) + valueOn, valueOn);
  }

  // ---- a whole text ----

  /** Nothing but spaces up to the end of the input, for which a null byte also counts. */
  predicate OnlySpace(w: seq<byte>) {
    w == [] || w[0] == 0 || ((9 <= w[0] <= 13 || w[0] == 32) && OnlySpace(w[1..]))
  }

  lemma {:induction false} SpaceSkipped(w: seq<byte>)
    ensures Cur(SkipSpace(w)) == 0 <==> OnlySpace(w)
  {
    if w != [] && Space(w[0]) {
      SpaceSkipped(w[1..]);
    }
  }

  lemma {:induction false} BlanksAreSpace(w: seq<byte>)
    requires Blanks(w)
    ensures OnlySpace(w)
  {
    if w != [] {
      assert Blank(w[0]);
      BlanksAreSpace(w[1..]);
    }
  }

  /** Any legal text, with any white space around and inside it, is read as the tree it
      stands for; no other tree is shown by what is returned. */
  lemma LoadReadsText(before: seq<byte>, v: Value, after: seq<byte>)
    requires Legal(v) && Blanks(before) && Blanks(after)
    ensures Readable(v)
    ensures var r := Load(before + (Text(v) + after));
            r.Loaded? && Shows(r.cells, r.root, Meaning(v), 0)
            && forall j :: Shows(r.cells, r.root, j, 0) ==> j == Meaning(v)
  {
    BlanksAreSpace(after);
    BlanksSeparate(before);
    LegalIsReadable(v);
    assert Ends(v, after) by {
      if after != [] {
        assert Blank(after[0]);
      }
    }
    hide Text, Meaning, Shows, Legal, Blanks, Readable, Separators, OnlySpace, Load;
    LoadEndsIff(before, v, after);
  }

  /** The same for all texts that the reader takes.  Only white space may follow: what is read
      is the tree the text stands for, or an error if anything else does. */
  lemma LoadEndsIff(before: seq<byte>, v: Value, after: seq<byte>)
    requires Readable(v) && Separators(before) && Ends(v, after)
    ensures var r := Load(before + (Text(v) + after));
            && (r == SyntaxError <==> !OnlySpace(after))
            && (r.Loaded? ==> Shows(r.cells, r.root, Meaning(v), 0)
                              && forall j :: Shows(r.cells, r.root, j, 0) ==> j == Meaning(v))
  {
    hide Text, Meaning, Shows, Readable, Run, Separators, OnlySpace;
    var input := before + (Text(v) + after);
    SeparatorsRun(Start(input), before, Text(v) + after);
    SpaceSkipped(after);
    var st := Start(Text(v) + after);
    if PrimitiveText(v) {
      TopPrimitive(st, v, after);
    } else {
      TopContainer(st, v, after);
    }
    var r := Load(input);
    if r.Loaded? {
      forall j | Shows(r.cells, r.root, j, 0) ensures j == Meaning(v) {
        ShowsOne(r.cells, r.root, j, Meaning(v), 0);
      }
    }
  }

  /** White space, commas and colons alone are not a text. */
  lemma {:induction false} NothingIsNoText(w: seq<byte>)
    requires forall i :: 0 <= i < |w| ==> w[i] in {32, 9, 10, 13, 44, 58}
    ensures Load(w) == SyntaxError
  {
    assert w + [] == w;
    FillerRuns(Start(w), w, []);
  }

  lemma TopPrimitive(st: State, v: Value, tail: seq<byte>)
    requires Readable(v) && PrimitiveText(v) && Ends(v, tail) && st == Start(Text(v) + tail)
    ensures var r := Run(st);
            && (r == SyntaxError <==> Cur(SkipSpace(tail)) != 0)
            && (r.Loaded? ==> Shows(r.cells, r.root, Meaning(v), 0))
  {
    PrimitiveLexes(v, tail);
    hide Lex, Text, Meaning, Readable, SkipSpace;
    assert Step(st) == Success(st.(rest := tail), Atom(Meaning(v).s));
  }

  lemma TopContainer(st: State, v: Value, tail: seq<byte>)
    requires Readable(v) && !PrimitiveText(v) && st == Start(Text(v) + tail)
    ensures var r := Run(st);
            && (r == SyntaxError <==> Cur(SkipSpace(tail)) != 0)
            && (r.Loaded? ==> Shows(r.cells, r.root, Meaning(v), 0))
  {
    hide Text, Meaning, Readable, Separators, Shows, Filled, Body, Through, SkipSpace;
    var end := [v.close] + tail;
    ContainerText(v, tail);
    ReadableCloses(v);
    var inner := TopOpens(st, v, Body(v) + end);
    var filled := BodyRuns(inner, v, end);
    ThroughFacts(inner, filled, end);
    FilledShows(filled.cells, v, 0);
    TopCloses(filled, v, tail);
  }

  /** An outermost container that is never closed is read all the same. */
  lemma LoadUnclosed(before: seq<byte>, v: Value)
    requires Readable(v) && !PrimitiveText(v) && Separators(before)
    ensures var r := Load(before + ([if v.Array? then 91 else 123] + Body(v)));
            r.Loaded? && Shows(r.cells, r.root, Meaning(v), 0)
  {
    hide Text, Meaning, Readable, Separators, Shows, Filled, Body, Through;
    var start := Start(before + ([Bracket(v)] + Body(v)));
    SeparatorsRun(start, before, [Bracket(v)] + Body(v));
    var st := Start([Bracket(v)] + Body(v));
    var inner := TopOpens(st, v, Body(v));
    assert Body(v) + [] == Body(v);
    var filled := BodyRuns(inner, v, []);
    ThroughFacts(inner, filled, []);
    FilledShows(filled.cells, v, 0);
    NothingLeft(filled);
  }

  lemma NothingLeft(st: State)
    requires Inside(st) && st.stack == [] && st.rest == []
    ensures Run(st) == Loaded(st.cells, Box(st.top.value))
  {
  }

  lemma TopOpens(st: State, v: Value, more: seq<byte>) returns (inner: State)
    requires !PrimitiveText(v) && st == Start([Bracket(v)] + more)
    ensures Fresh(inner, v) && inner.rest == more && inner.stack == [] && inner.top == Some(0) && Run(st) == Run(inner)
  {
    Skip(Bracket(v), more);
    hide ScanWord, ScanString, ScanNumber, ParseNumber;
    inner := StepOpen(st.(rest := more), Empty(v)).st;
    assert Lex(st.rest) == Open(Empty(v), more);
    assert Step(st) == Go(inner);
  }

  lemma TopCloses(st: State, v: Value, tail: seq<byte>)
    requires !PrimitiveText(v) && v.close in {93, 125}
    requires Inside(st) && st.stack == [] && st.rest == [v.close] + tail
    ensures Run(st) == if Cur(SkipSpace(tail)) == 0 then Loaded(st.cells, Box(st.top.value)) else SyntaxError
  {
    Skip(v.close, tail);
    hide ScanWord, ScanString, ScanNumber, ParseNumber, SkipSpace;
    assert Lex(st.rest) == Close(tail);
    assert Step(st) == Success(st.(rest := tail), Box(st.top.value));
  }
}
