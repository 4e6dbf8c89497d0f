/** The JSON reader as a machine: a cursor, the containers built so far, the stack of open
    ones and the key waiting for its value.  The tree is not recursed into; containers are
    filled through references, as they are met. */
module JsonMachine {
  import opened Basics
  import opened JsonText
  import opened JsonScan

  datatype Ref = Atom(s: Scalar) | Box(id: nat)
  datatype Cell = ListCell(items: seq<Ref>) | DictCell(entries: map<Scalar, Ref>)

  /** `top` is the innermost open container and `stack` holds the ones around it. */
  datatype State = State(rest: seq<byte>, cells: seq<Cell>, stack: seq<nat>, top: Option<nat>, key: Option<Scalar>)

  datatype Result = Loaded(cells: seq<Cell>, root: Ref) | SyntaxError

  datatype Token =
    | Filler(rest: seq<byte>)
    | Primitive(s: Scalar, rest: seq<byte>)
    | Open(empty: Cell, rest: seq<byte>)
    | Close(rest: seq<byte>)
    | Bad

  datatype Outcome = Go(st: State) | Success(st: State, root: Ref) | Fail

  function Start(input: seq<byte>): State { State(input, [], [], None, None) }

  // ---- tokens ----

  predicate FillerByte(c: byte) { c in {44, 58, 32, 9, 10, 13} }

  ghost function Word(s: Scalar, rest: Option<seq<byte>>): Token {
    match rest
    case None => Bad
    case Some(r) => Primitive(s, r)
  }

  ghost function StringToken(s: Option<Scan<seq<byte>>>): Token {
    match s
    case None => Bad
    case Some(scan) => Primitive(Str(scan.value), scan.rest)
  }

  ghost function NumberToken(s: Scan<seq<byte>>): Token {
    match ParseNumber(s.value)
    case None => Bad
    case Some(n) => Primitive(n, s.rest)
  }

  /** The token under the cursor. */
  ghost function Lex(rest: seq<byte>): Token
    requires Cur(rest) != 0
  {
    var c, more := Cur(rest), Next(rest);
    if FillerByte(c) then Filler(more)
    else if c == 110 then Word(Null, ScanWord(more, NULL_TEXT[1..]))
    else if c == 102 then Word(Bool(false), ScanWord(more, FALSE_TEXT[1..]))
    else if c == 116 then Word(Bool(true), ScanWord(more, TRUE_TEXT[1..]))
    else if c == QUOTE then StringToken(ScanString(more, []))
    else if c == MINUS || Digit(c) then NumberToken(ScanNumber(more, [c]))
    else if c == 91 then Open(ListCell([]), more)
    else if c == 123 then Open(DictCell(map[]), more)
    else if c == 125 || c == 93 then Close(more)
    else Bad
  }

  lemma {:induction false} WordShortens(rest: seq<byte>, word: seq<byte>)
    ensures ScanWord(rest, word).Some? ==> |ScanWord(rest, word).value| <= |rest|
  {
    if word != [] {
      WordShortens(Next(rest), word[1..]);
    }
  }

  lemma {:induction false} StringShortens(rest: seq<byte>, acc: seq<byte>)
    ensures ScanString(rest, acc).Some? ==> |ScanString(rest, acc).value.rest| <= |rest|
    decreases |rest|
  {
    if Cur(rest) != 0 && Cur(rest) != QUOTE {
      StringShortens(ScanChar(rest).rest, acc + ScanChar(rest).value);
    }
  }

  lemma {:induction false} NumberShortens(rest: seq<byte>, acc: seq<byte>)
    ensures |ScanNumber(rest, acc).rest| <= |rest|
    decreases |rest|
  {
    if NumberByte(Cur(rest)) {
      NumberShortens(rest[1..], acc + [rest[0]]);
    }
  }

  /** Every token takes up at least one byte. */
  lemma LexShortens(rest: seq<byte>)
    requires Cur(rest) != 0
    ensures !Lex(rest).Bad? ==> |Lex(rest).rest| < |rest|
  {
    var more := Next(rest);
    WordShortens(more, NULL_TEXT[1..]);
    WordShortens(more, FALSE_TEXT[1..]);
    WordShortens(more, TRUE_TEXT[1..]);
    StringShortens(more, []);
    NumberShortens(more, [Cur(rest)]);
    hide ScanWord, ScanString, ScanNumber, ParseNumber, FillerByte, Digit;
  }

  // ---- steps ----

  /** The references on the stack are to containers. */
  ghost predicate Bound(st: State) {
    && (st.top.Some? ==> st.top.value < |st.cells|)
    && (forall i :: 0 <= i < |st.stack| ==> st.stack[i] < |st.cells|)
  }

  /** A list takes a value; a dictionary takes it only when a key waits for it. */
  ghost predicate Takes(cell: Cell, key: Option<Scalar>) { cell.ListCell? || key.Some? }

  ghost function With(cell: Cell, key: Option<Scalar>, ref: Ref): Cell
    requires Takes(cell, key)
  {
    match cell
    case ListCell(items) => ListCell(items + [ref])
    case DictCell(entries) => DictCell(entries[key.value := ref])
  }

  ghost function KeyAfter(cell: Cell, key: Option<Scalar>): Option<Scalar> {
    if cell.ListCell? then key else None
  }

  ghost function Added(st: State, ref: Ref): State
    requires Bound(st) && st.top.Some? && Takes(st.cells[st.top.value], st.key)
  {
    var t := st.top.value;
    st.(cells := st.cells[t := With(st.cells[t], st.key, ref)], key := KeyAfter(st.cells[t], st.key))
  }

  ghost function StepPrimitive(st: State, s: Scalar): Outcome
    requires Bound(st)
  {
    if st.top.None? then Success(st, Atom(s))
    else if Takes(st.cells[st.top.value], st.key) then Go(Added(st, Atom(s)))
    else Go(st.(key := Some(s)))
  }

  ghost function StepOpen(st: State, empty: Cell): Outcome
    requires Bound(st)
  {
    var id := |st.cells|;
    if st.top.None? then Go(st.(cells := st.cells + [empty], top := Some(id)))
    else if !Takes(st.cells[st.top.value], st.key) then Fail
    else
      var added := Added(st, Box(id));
      Go(added.(cells := added.cells + [empty], stack := st.stack + [st.top.value], top := Some(id)))
  }

  ghost function StepClose(st: State): Outcome {
    if st.top.None? then Fail
    else if st.stack == [] then Success(st, Box(st.top.value))
    else Go(st.(stack := st.stack[..|st.stack| - 1], top := Some(st.stack[|st.stack| - 1])))
  }

  ghost function StepToken(st: State, token: Token): Outcome
    requires Bound(st)
  {
    match token
    case Filler(r) => Go(st.(rest := r))
    case Primitive(s, r) => StepPrimitive(st.(rest := r), s)
    case Open(empty, r) => StepOpen(st.(rest := r), empty)
    case Close(r) => StepClose(st.(rest := r))
    case Bad => Fail
  }

  lemma StepTokenBound(st: State, token: Token)
    requires Bound(st)
    ensures var o := StepToken(st, token);
            o.Go? ==> Bound(o.st) && !token.Bad? && o.st.rest == token.rest
  {
  }

  ghost function Step(st: State): (o: Outcome)
    requires Bound(st) && Cur(st.rest) != 0
    ensures o.Go? ==> Bound(o.st) && |o.st.rest| < |st.rest|
  {
    LexShortens(st.rest);
    StepTokenBound(st, Lex(st.rest));
    StepToken(st, Lex(st.rest))
  }

  /** White space here includes the vertical tab and the form feed. */
  predicate Space(c: byte) { 9 <= c <= 13 || c == 32 }

  function SkipSpace(rest: seq<byte>): seq<byte> {
    if Space(Cur(rest)) then SkipSpace(Next(rest)) else rest
  }

  /** Nothing but white space may follow, and every container but the outermost is closed. */
  function Finish(st: State, root: Option<Ref>): Result {
    if Cur(SkipSpace(st.rest)) != 0 || root.None? || st.stack != [] then SyntaxError
    else Loaded(st.cells, root.value)
  }

  function AsRef(top: Option<nat>): Option<Ref> {
    match top
    case None => None
    case Some(id) => Some(Box(id))
  }

  ghost function Run(st: State): Result
    requires Bound(st)
    decreases |st.rest|
  {
    if Cur(st.rest) == 0 then Finish(st, AsRef(st.top))
    else match Step(st)
      case Go(next) => Run(next)
      case Success(end, root) => Finish(end, Some(root))
      case Fail => SyntaxError
  }

  ghost function Load(input: seq<byte>): Result { Run(Start(input)) }

  // ---- the stack is the path of open containers ----

  ghost predicate Holds(cell: Cell, id: nat) {
    match cell
    case ListCell(items) => items != [] && items[|items| - 1] == Box(id)
    case DictCell(entries) => exists k :: k in entries && entries[k] == Box(id)
  }

  ghost predicate Chain(cells: seq<Cell>, path: seq<nat>) {
    && (forall i :: 0 <= i < |path| ==> path[i] < |cells|)
    && (forall i, j :: 0 <= i < j < |path| ==> path[i] < path[j])
    && (forall i {:trigger path[i]} :: 0 <= i < |path| - 1 ==> Holds(cells[path[i]], path[i + 1]))
  }

  /** Container 0 is the outermost one; each open container was the last to be put into the
      one before it; and `top` is the innermost. */
  ghost predicate OpenPath(st: State) {
    && Bound(st)
    && (st.top.None? ==> st.stack == [] && st.cells == [])
    && (st.top.Some? ==> Chain(st.cells, st.stack + [st.top.value]) && (st.stack + [st.top.value])[0] == 0)
  }

  /** Whatever the input, the stack stays the path of open containers. */
  lemma StepKeepsPath(st: State)
    requires OpenPath(st) && Cur(st.rest) != 0 && Step(st).Go?
    ensures OpenPath(Step(st).st)
  {
    hide Lex, Holds;
    match Lex(st.rest)
    case Filler(r) =>
    case Primitive(s, r) => PrimitiveKeepsPath(st, s, r);
    case Open(empty, r) => OpenKeepsPath(st, empty, r);
    case Close(r) => CloseKeepsPath(st, r);
  }

  lemma AddedKeepsPath(st: State, ref: Ref)
    requires OpenPath(st) && st.top.Some? && Takes(st.cells[st.top.value], st.key)
    ensures OpenPath(Added(st, ref))
  {
    hide Holds, With, KeyAfter;
    var path, t := st.stack + [st.top.value], st.top.value;
    var after := Added(st, ref).cells;
    forall i {:trigger path[i]} | 0 <= i < |path| - 1 ensures Holds(after[path[i]], path[i + 1]) {
      assert path[i] < path[|path| - 1] == t;
    }
  }

  lemma PrimitiveKeepsPath(st: State, s: Scalar, r: seq<byte>)
    requires OpenPath(st) && StepPrimitive(st.(rest := r), s).Go?
    ensures OpenPath(StepPrimitive(st.(rest := r), s).st)
  {
    if Takes(st.cells[st.top.value], st.key) {
      AddedKeepsPath(st.(rest := r), Atom(s));
    }
    hide Holds, Chain, Added;
  }

  lemma OpenKeepsPath(st: State, empty: Cell, r: seq<byte>)
    requires OpenPath(st) && StepOpen(st.(rest := r), empty).Go?
    ensures OpenPath(StepOpen(st.(rest := r), empty).st)
  {
    var next := StepOpen(st.(rest := r), empty).st;
    if st.top.Some? {
      var added := Added(st.(rest := r), Box(|st.cells|));
      AddedKeepsPath(st.(rest := r), Box(|st.cells|));
      WithHolds(st.cells[st.top.value], st.key, |st.cells|);
      hide Holds, With, KeyAfter;
      LongerChain(added.cells, empty, st.stack + [st.top.value]);
    }
  }

  lemma WithHolds(cell: Cell, key: Option<Scalar>, id: nat)
    requires Takes(cell, key)
    ensures Holds(With(cell, key, Box(id)), id)
  {
    if cell.DictCell? {
      assert key.value in With(cell, key, Box(id)).entries;
    }
  }

  lemma LongerChain(cells: seq<Cell>, empty: Cell, path: seq<nat>)
    requires path != [] && Chain(cells, path) && Holds(cells[path[|path| - 1]], |cells|)
    ensures Chain(cells + [empty], path + [|cells|])
  {
    hide Holds;
    var longer, more := path + [|cells|], cells + [empty];
    forall i {:trigger longer[i]} | 0 <= i < |longer| - 1 ensures Holds(more[longer[i]], longer[i + 1]) {
      assert longer[i] == path[i];
    }
  }

  lemma CloseKeepsPath(st: State, r: seq<byte>)
    requires OpenPath(st) && StepClose(st.(rest := r)).Go?
    ensures OpenPath(StepClose(st.(rest := r)).st)
  {
    hide Holds;
    var path := st.stack + [st.top.value];
    assert st.stack[..|st.stack| - 1] + [st.stack[|st.stack| - 1]] == path[..|path| - 1];
    ShorterChain(st.cells, path);
  }

  lemma ShorterChain(cells: seq<Cell>, path: seq<nat>)
    requires |path| > 1 && Chain(cells, path)
    ensures Chain(cells, path[..|path| - 1])
  {
    hide Holds;
    var p := path[..|path| - 1];
    forall i {:trigger p[i]} | 0 <= i < |p| - 1 ensures Holds(cells[p[i]], p[i + 1]) {
      assert p[i] == path[i];
    }
  }
}
