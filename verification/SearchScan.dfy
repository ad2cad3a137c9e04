/**
  The streaming search-response transform: a byte-driven state machine that
  forwards everything verbatim except the elements of the `hits.hits` array, each
  of which it frames, hands to `f`, and replaces by the result.

  `Step` is what one byte does to the scanner's fields; `SearchHitsScanner` is the
  scanner, proved handler by handler against it.
*/
module SearchScan {
  import opened Bytes
  import opened JsonNest
  import JsonString

  datatype Phase =
    | SeekRoot | ObjExpectKey | ObjReadKey | ObjExpectColon | ObjExpectValue | SkipValue
    | ObjExpectComma | ArrExpectElem | ArrReadElem | ArrExpectComma | Passthrough

  datatype Skip = Skip(depth: nat, inStr: bool, esc: bool, scalar: bool)

  datatype Kind = Unknown | StrKind | StructKind | ScalarKind

  datatype Elem = Elem(buf: bytes, kind: Kind, depth: nat, inStr: bool, esc: bool)

  const FRESH_ELEM := Elem([], Unknown, 0, false, false)
  const FRESH_SKIP := Skip(0, false, false, false)

  /** The scanner's fields. `level` is 1 in the root object, 2 in its `hits`. */
  datatype State = State(phase: Phase, level: nat, keyIsHits: bool, keyBuf: bytes, keyEsc: bool,
                         skip: Skip, elem: Elem, out: bytes)

  const START := State(SeekRoot, 0, false, [], false, FRESH_SKIP, FRESH_ELEM, [])

  const HITS: bytes := [0x68, 0x69, 0x74, 0x73]

  /** The raw key, re-quoted, is a string literal for `hits`. */
  predicate DecodedKeyIsHits(raw: bytes) {
    JsonString.ReadBody(raw + [QUOTE]) == Some(JsonString.Decoded(HITS, []))
  }

  /** The byte was consumed, or must be dispatched again under the new phase. */
  datatype Flow = Consume(s: State) | Redo(s: State)

  function Push(s: State, b: byte): State {
    s.(out := s.out + [b])
  }

  /** The element is complete: its transformed text goes out. */
  function Finish(f: bytes -> bytes, s: State): State {
    s.(out := s.out + f(s.elem.buf), elem := s.elem.(buf := []), phase := ArrExpectComma)
  }

  function SkipBegin(b: byte): Skip {
    if b == QUOTE then FRESH_SKIP.(inStr := true)
    else if Opens(b) then FRESH_SKIP.(depth := 1)
    else FRESH_SKIP.(scalar := true)
  }

  function AtExpectValue(s: State, b: byte): State {
    var p := Push(s, b);
    if IsWs(b) then p
    else if s.keyIsHits then
      if s.level == 1 && b == LBRACE then p.(level := 2, phase := ObjExpectKey)
      else if s.level == 2 && b == LBRACKET then p.(phase := ArrExpectElem)
      else p.(phase := Passthrough)
    else p.(skip := SkipBegin(b), phase := SkipValue)
  }

  function AtSkipValue(s: State, b: byte): Flow {
    var k := s.skip;
    var p := Push(s, b);
    if k.inStr then
      if k.esc then Consume(p.(skip := k.(esc := false)))
      else if b == BACKSLASH then Consume(p.(skip := k.(esc := true)))
      else if b == QUOTE then
        Consume(p.(skip := k.(inStr := false), phase := if k.depth == 0 then ObjExpectComma else s.phase))
      else Consume(p)
    else if k.depth > 0 then
      if b == QUOTE then Consume(p.(skip := k.(inStr := true)))
      else if Opens(b) then Consume(p.(skip := k.(depth := k.depth + 1)))
      else if Closes(b) then
        Consume(p.(skip := k.(depth := k.depth - 1), phase := if k.depth == 1 then ObjExpectComma else s.phase))
      else Consume(p)
    else if IsWs(b) || b == COMMA || b == RBRACE then Redo(s.(phase := ObjExpectComma))
    else Consume(p)
  }

  function ReadElem(f: bytes -> bytes, s: State, b: byte): Flow {
    var e := s.elem;
    var p := e.(buf := e.buf + [b]);
    match e.kind
    case Unknown =>
      Consume(s.(elem :=
        if b == QUOTE then p.(inStr := true, kind := StrKind)
        else if Opens(b) then p.(depth := 1, kind := StructKind)
        else p.(kind := ScalarKind)))
    case StrKind =>
      if e.esc then Consume(s.(elem := p.(esc := false)))
      else if b == BACKSLASH then Consume(s.(elem := p.(esc := true)))
      else if b == QUOTE then Consume(Finish(f, s.(elem := p)))
      else Consume(s.(elem := p))
    case StructKind =>
      if e.inStr then
        if e.esc then Consume(s.(elem := p.(esc := false)))
        else if b == BACKSLASH then Consume(s.(elem := p.(esc := true)))
        else if b == QUOTE then Consume(s.(elem := p.(inStr := false)))
        else Consume(s.(elem := p))
      else if b == QUOTE then Consume(s.(elem := p.(inStr := true)))
      else if Opens(b) then Consume(s.(elem := p.(depth := e.depth + 1)))
      else if Closes(b) && e.depth > 0 then
        if e.depth == 1 then Consume(Finish(f, s.(elem := p.(depth := 0))))
        else Consume(s.(elem := p.(depth := e.depth - 1)))
      else Consume(s.(elem := p))
    case ScalarKind =>
      if IsWs(b) || b == COMMA || b == RBRACKET then Redo(Finish(f, s))
      else Consume(s.(elem := p))
  }

  function Dispatch(f: bytes -> bytes, s: State, b: byte): Flow {
    var p := Push(s, b);
    match s.phase
    case SeekRoot =>
      Consume(if b == LBRACE then p.(level := 1, phase := ObjExpectKey)
              else if IsWs(b) then p else p.(phase := Passthrough))
    case ObjExpectKey =>
      Consume(if b == QUOTE then p.(keyBuf := [], keyEsc := false, phase := ObjReadKey)
              else if IsWs(b) then p else p.(phase := Passthrough))
    case ObjReadKey =>
      Consume(if s.keyEsc then p.(keyEsc := false, keyBuf := s.keyBuf + [b])
              else if b == BACKSLASH then p.(keyEsc := true, keyBuf := s.keyBuf + [b])
              else if b == QUOTE then p.(keyIsHits := DecodedKeyIsHits(s.keyBuf), phase := ObjExpectColon)
              else p.(keyBuf := s.keyBuf + [b]))
    case ObjExpectColon =>
      Consume(if b == COLON then p.(phase := ObjExpectValue)
              else if IsWs(b) then p else p.(phase := Passthrough))
    case ObjExpectValue => Consume(AtExpectValue(s, b))
    case SkipValue => AtSkipValue(s, b)
    case ObjExpectComma =>
      Consume(if b == COMMA then p.(phase := ObjExpectKey)
              else if IsWs(b) then p else p.(phase := Passthrough))
    case ArrExpectElem =>
      if IsWs(b) then Consume(p)
      else if b == RBRACKET then Consume(p.(phase := Passthrough))
      else Redo(s.(elem := FRESH_ELEM, phase := ArrReadElem))
    case ArrReadElem => ReadElem(f, s, b)
    case ArrExpectComma =>
      Consume(if b == COMMA then p.(phase := ArrExpectElem)
              else if IsWs(b) then p else p.(phase := Passthrough))
    case Passthrough => Consume(p)
  }

  /** How many more times the same byte can be dispatched. */
  function Rank(p: Phase): nat {
    match p
    case ArrExpectElem => 2
    case ArrReadElem => 1
    case SkipValue => 1
    case _ => 0
  }

  function Step(f: bytes -> bytes, s: State, b: byte): State
    decreases Rank(s.phase)
  {
    match Dispatch(f, s, b)
    case Consume(t) => t
    case Redo(t) => Step(f, t, b)
  }

  /** The scanner after a whole stretch of input. */
  function Run(f: bytes -> bytes, s: State, input: bytes): State
    decreases |input|
  {
    if input == [] then s else Run(f, Step(f, s, input[0]), input[1..])
  }

  lemma {:induction false} RunAppend(f: bytes -> bytes, s: State, a: bytes, b: bytes)
    ensures Run(f, s, a + b) == Run(f, Run(f, s, a), b)
    decreases |a|
  {
    if a == [] {
      assert a + b == b;
    } else {
      assert (a + b)[1..] == a[1..] + b;
      RunAppend(f, Step(f, s, a[0]), a[1..], b);
    }
  }

  lemma {:induction false} RunPassthrough(f: bytes -> bytes, s: State, input: bytes)
    requires s.phase == Passthrough
    ensures Run(f, s, input) == s.(out := s.out + input)
    decreases |input|
  {
    if input == [] {
      assert s.out + input == s.out;
    } else {
      RunPassthrough(f, Push(s, input[0]), input[1..]);
      assert (s.out + [input[0]]) + input[1..] == s.out + input;
    }
  }

  // ---------- what is already emitted decides nothing ----------

  function Before(o: bytes, s: State): State {
    s.(out := o + s.out)
  }

  function FlowBefore(o: bytes, w: Flow): Flow {
    match w
    case Consume(s) => Consume(Before(o, s))
    case Redo(s) => Redo(Before(o, s))
  }

  lemma PushBefore(o: bytes, s: State, b: byte)
    ensures Push(Before(o, s), b) == Before(o, Push(s, b))
  {
    assert (o + s.out) + [b] == o + (s.out + [b]);
  }

  lemma FinishBefore(f: bytes -> bytes, o: bytes, s: State)
    ensures Finish(f, Before(o, s)) == Before(o, Finish(f, s))
  {
    assert (o + s.out) + f(s.elem.buf) == o + (s.out + f(s.elem.buf));
  }

  lemma ReadElemBefore(f: bytes -> bytes, o: bytes, s: State, b: byte)
    ensures ReadElem(f, Before(o, s), b) == FlowBefore(o, ReadElem(f, s, b))
  {
    hide Finish;
    var p := s.elem.(buf := s.elem.buf + [b]);
    FinishBefore(f, o, s);
    FinishBefore(f, o, s.(elem := p));
    FinishBefore(f, o, s.(elem := p.(depth := 0)));
    assert Before(o, s).(elem := p) == Before(o, s.(elem := p));
    assert Before(o, s).(elem := p.(depth := 0)) == Before(o, s.(elem := p.(depth := 0)));
  }

  lemma AtSkipValueBefore(o: bytes, s: State, b: byte)
    ensures AtSkipValue(Before(o, s), b) == FlowBefore(o, AtSkipValue(s, b))
  {
    hide Push;
    PushBefore(o, s, b);
  }

  lemma AtExpectValueBefore(o: bytes, s: State, b: byte)
    ensures AtExpectValue(Before(o, s), b) == Before(o, AtExpectValue(s, b))
  {
    hide Push, SkipBegin;
    PushBefore(o, s, b);
  }

  lemma DispatchBefore(f: bytes -> bytes, o: bytes, s: State, b: byte)
    ensures Dispatch(f, Before(o, s), b) == FlowBefore(o, Dispatch(f, s, b))
  {
    hide Push, ReadElem, DecodedKeyIsHits, AtSkipValue, AtExpectValue;
    PushBefore(o, s, b);
    match s.phase
    case SkipValue => AtSkipValueBefore(o, s, b);
    case ObjExpectValue => AtExpectValueBefore(o, s, b);
    case ArrReadElem => ReadElemBefore(f, o, s, b);
    case _ =>
  }

  lemma {:induction false} StepBefore(f: bytes -> bytes, o: bytes, s: State, b: byte)
    ensures Step(f, Before(o, s), b) == Before(o, Step(f, s, b))
    decreases Rank(s.phase)
  {
    DispatchBefore(f, o, s, b);
    match Dispatch(f, s, b)
    case Consume(t) =>
    case Redo(t) => StepBefore(f, o, t, b);
  }

  lemma {:induction false} RunBefore(f: bytes -> bytes, o: bytes, s: State, input: bytes)
    ensures Run(f, Before(o, s), input) == Before(o, Run(f, s, input))
    decreases |input|
  {
    if input != [] {
      StepBefore(f, o, s, input[0]);
      RunBefore(f, o, Step(f, s, input[0]), input[1..]);
    }
  }

  // ---------- chunks ----------

  function Drained(s: State): State {
    s.(out := [])
  }

  /** What feeding the chunks one after the other emits, `finish` included. */
  function FeedAll(f: bytes -> bytes, s: State, chunks: seq<bytes>): bytes
    decreases |chunks|
  {
    if chunks == [] then s.out
    else
      var t := Run(f, s, chunks[0]);
      t.out + FeedAll(f, Drained(t), chunks[1..])
  }

  function Concat(chunks: seq<bytes>): bytes {
    if chunks == [] then [] else chunks[0] + Concat(chunks[1..])
  }

  /** However the response is cut into chunks, the bytes emitted are those of one
      run over the whole of it. */
  lemma {:induction false} ChunkIndependence(f: bytes -> bytes, s: State, chunks: seq<bytes>)
    requires s.out == []
    ensures FeedAll(f, s, chunks) == Run(f, s, Concat(chunks)).out
    decreases |chunks|
  {
    if chunks != [] {
      var t := Run(f, s, chunks[0]);
      var rest := Concat(chunks[1..]);
      ChunkIndependence(f, Drained(t), chunks[1..]);
      RunAppend(f, s, chunks[0], rest);
      assert Before(t.out, Drained(t)) == t by { assert t.out + [] == t.out; }
      RunBefore(f, t.out, Drained(t), rest);
    }
  }
}
