/**
  What the streaming transform keeps on every input, malformed or truncated
  included: nothing is lost, reordered or duplicated, and a hit is emitted only
  through `f` and only once it is complete.
*/
module SearchConserve {
  import opened Bytes
  import opened JsonNest
  import opened SearchScan

  /** A stretch forwarded verbatim, or a complete element replaced by `f` of it. */
  datatype Piece = Copied(raw: bytes) | Shaped(raw: bytes)

  function InputOf(pieces: seq<Piece>): bytes {
    if pieces == [] then [] else pieces[0].raw + InputOf(pieces[1..])
  }

  function OutputOf(f: bytes -> bytes, pieces: seq<Piece>): bytes {
    if pieces == [] then []
    else (match pieces[0] case Copied(raw) => raw case Shaped(raw) => f(raw)) + OutputOf(f, pieces[1..])
  }

  predicate EndsScalar(b: byte) {
    IsWs(b) || b == COMMA || b == RBRACKET
  }

  /** A complete element: a string up to its closing quote, a bracket up to the one
      that closes it, or a scalar. */
  predicate Framed(raw: bytes) {
    Started(raw)
    && if raw[0] == QUOTE then StrEnd(false, raw[1..]) == Some([])
       else if Opens(raw[0]) then NestEnd(OPENED, raw[1..]) == Some([])
       else forall b | b in raw[1..] :: !EndsScalar(b)
  }

  /** The element cursor says what has been buffered so far: the start of a string
      or bracket that is still open, or of a scalar. */
  predicate Partial(e: Elem) {
    match e.kind
    case Unknown => e == FRESH_ELEM
    case StrKind => Started(e.buf) && e.buf[0] == QUOTE && StrRun(false, e.buf[1..]) == Some(e.esc)
    case StructKind =>
      Started(e.buf) && Opens(e.buf[0]) && e.depth > 0
        && NestRun(OPENED, e.buf[1..]) == Some(Nest(e.depth, e.inStr, e.esc))
    case ScalarKind =>
      Started(e.buf) && e.buf[0] != QUOTE && !Opens(e.buf[0]) && forall b | b in e.buf[1..] :: !EndsScalar(b)
  }

  predicate Started(buf: bytes) {
    buf != [] && !IsWs(buf[0]) && buf[0] != RBRACKET
  }

  predicate Inv(s: State) {
    if s.phase == ArrReadElem then Partial(s.elem) else s.elem.buf == []
  }

  /** The one element held back. */
  function Pending(s: State): bytes {
    s.elem.buf
  }

  predicate AllFramed(pieces: seq<Piece>) {
    forall p | p in pieces && p.Shaped? :: Framed(p.raw)
  }

  // ---------- appending a byte to an open string or bracket ----------

  lemma {:induction false} StrRunAppend(esc: bool, s: bytes, b: byte)
    requires StrRun(esc, s).Some?
    ensures var m := StrRun(esc, s).value;
            if !m && b == QUOTE then StrEnd(esc, s + [b]) == Some([])
            else StrRun(esc, s + [b]) == Some(!m && b == BACKSLASH)
    decreases |s|
  {
    if s == [] {
      assert s + [b] == [b];
      assert [b][1..] == [];
    } else {
      assert (s + [b])[1..] == s[1..] + [b];
      StrRunAppend(!esc && s[0] == BACKSLASH, s[1..], b);
    }
  }

  lemma {:induction false} NestRunAppend(n: Nest, s: bytes, b: byte)
    requires NestRun(n, s).Some?
    ensures var m := NestStep(NestRun(n, s).value, b);
            if m.depth == 0 then NestEnd(n, s + [b]) == Some([]) else NestRun(n, s + [b]) == Some(m)
    decreases |s|
  {
    if s == [] {
      assert s + [b] == [b];
      assert [b][1..] == [];
    } else {
      assert (s + [b])[1..] == s[1..] + [b];
      NestRunAppend(NestStep(n, s[0]), s[1..], b);
    }
  }

  // ---------- one dispatch ----------

  /** From `s` to `t` the scanner read `input` and emitted what the pieces say. */
  ghost predicate Accounts(f: bytes -> bytes, s: State, input: bytes, t: State, pieces: seq<Piece>) {
    && Inv(t) && AllFramed(pieces)
    && Pending(s) + input == InputOf(pieces) + Pending(t)
    && t.out == s.out + OutputOf(f, pieces)
  }

  lemma OnePiece(f: bytes -> bytes, p: Piece)
    ensures InputOf([p]) == p.raw
    ensures OutputOf(f, [p]) == match p case Copied(raw) => raw case Shaped(raw) => f(raw)
    ensures p.Shaped? ==> (AllFramed([p]) <==> Framed(p.raw))
    ensures p.Copied? ==> AllFramed([p])
  {
    assert [p][1..] == [];
    assert p in [p];
  }

  lemma CopyOne(f: bytes -> bytes, s: State, b: byte, t: State)
    requires Pending(s) == [] && Pending(t) == [] && Inv(t) && t.out == s.out + [b]
    ensures Accounts(f, s, [b], t, [Copied([b])])
  {
    OnePiece(f, Copied([b]));
  }

  /** A byte held back with the rest of the pending element. */
  lemma Held(f: bytes -> bytes, s: State, b: byte, t: State)
    requires Pending(t) == Pending(s) + [b] && Inv(t) && t.out == s.out
    ensures Accounts(f, s, [b], t, [])
  {
  }

  /** A byte that completes the pending element. */
  lemma Completed(f: bytes -> bytes, s: State, b: byte, t: State)
    requires Framed(Pending(s) + [b]) && Pending(t) == [] && Inv(t) && t.out == s.out + f(Pending(s) + [b])
    ensures Accounts(f, s, [b], t, [Shaped(Pending(s) + [b])])
  {
    OnePiece(f, Shaped(Pending(s) + [b]));
  }

  /** A byte of a bracketed element moves its cursor as `NestStep` does. */
  lemma StructStep(f: bytes -> bytes, s: State, b: byte)
    requires s.phase == ArrReadElem && s.elem.kind == StructKind && s.elem.depth > 0
    ensures var e, m := s.elem, NestStep(Nest(s.elem.depth, s.elem.inStr, s.elem.esc), b);
            ReadElem(f, s, b) ==
            Consume(if m.depth == 0 then Finish(f, s.(elem := e.(buf := e.buf + [b], depth := 0)))
                    else s.(elem := e.(buf := e.buf + [b], depth := m.depth, inStr := m.inStr, esc := m.esc)))
  {
    hide Finish;
  }

  lemma BufferStruct(f: bytes -> bytes, s: State, b: byte, t: State) returns (pieces: seq<Piece>)
    requires s.phase == ArrReadElem && Inv(s) && s.elem.kind == StructKind && ReadElem(f, s, b) == Consume(t)
    ensures Accounts(f, s, [b], t, pieces)
  {
    hide StrRun, StrEnd, NestRun, NestEnd, Accounts, IsWs;
    var buf := s.elem.buf + [b];
    assert buf[1..] == s.elem.buf[1..] + [b] && buf[0] == s.elem.buf[0];
    NestRunAppend(OPENED, s.elem.buf[1..], b);
    StructStep(f, s, b);
    hide ReadElem, NestStep;
    if t.phase == ArrExpectComma {
      pieces := [Shaped(buf)];
      Completed(f, s, b, t);
    } else {
      pieces := [];
      Held(f, s, b, t);
    }
  }

  lemma BufferString(f: bytes -> bytes, s: State, b: byte, t: State) returns (pieces: seq<Piece>)
    requires s.phase == ArrReadElem && Inv(s) && s.elem.kind == StrKind && ReadElem(f, s, b) == Consume(t)
    ensures Accounts(f, s, [b], t, pieces)
  {
    hide StrRun, StrEnd, NestRun, NestEnd, Accounts;
    var buf := s.elem.buf + [b];
    assert buf[1..] == s.elem.buf[1..] + [b] && buf[0] == s.elem.buf[0];
    StrRunAppend(false, s.elem.buf[1..], b);
    if t.phase == ArrExpectComma {
      pieces := [Shaped(buf)];
      Completed(f, s, b, t);
    } else {
      pieces := [];
      Held(f, s, b, t);
    }
  }

  /** A byte buffered into the pending element, which may thereby be complete. */
  lemma BufferOne(f: bytes -> bytes, s: State, b: byte, t: State) returns (pieces: seq<Piece>)
    requires s.phase == ArrReadElem && Inv(s) && ReadElem(f, s, b) == Consume(t)
    requires s.elem.kind == Unknown ==> !IsWs(b) && b != RBRACKET
    ensures Accounts(f, s, [b], t, pieces)
  {
    hide StrRun, StrEnd, NestRun, NestEnd, Accounts;
    var buf := s.elem.buf + [b];
    if s.elem.kind == StrKind {
      pieces := BufferString(f, s, b, t);
    } else if s.elem.kind == StructKind {
      pieces := BufferStruct(f, s, b, t);
    } else {
      pieces := [];
      if s.elem.kind == Unknown {
        assert buf == [b] && buf[1..] == [];
        EmptyRuns();
      } else {
        assert buf[1..] == s.elem.buf[1..] + [b] && buf[0] == s.elem.buf[0];
      }
      Held(f, s, b, t);
    }
  }

  lemma EmptyRuns()
    ensures StrRun(false, []) == Some(false) && NestRun(OPENED, []) == Some(OPENED)
  {
  }

  lemma CompleteScalar(f: bytes -> bytes, s: State, t: State)
    requires s.phase == ArrReadElem && Inv(s) && s.elem.kind == ScalarKind && t == Finish(f, s)
    ensures Accounts(f, s, [], t, [Shaped(s.elem.buf)])
  {
    OnePiece(f, Shaped(s.elem.buf));
  }

  lemma Nothing(f: bytes -> bytes, s: State, t: State)
    requires Pending(s) == Pending(t) && Inv(t) && t.out == s.out
    ensures Accounts(f, s, [], t, [])
  {
  }

  lemma DispatchAccounts(f: bytes -> bytes, s: State, b: byte) returns (pieces: seq<Piece>)
    requires Inv(s) && (s.phase == ArrReadElem && s.elem.kind == Unknown ==> !IsWs(b) && b != RBRACKET)
    ensures match Dispatch(f, s, b)
            case Consume(t) => Accounts(f, s, [b], t, pieces)
            case Redo(t) => Accounts(f, s, [], t, pieces)
                            && (t.phase == ArrReadElem && t.elem.kind == Unknown ==> !IsWs(b) && b != RBRACKET)
  {
    hide DecodedKeyIsHits, Accounts, Partial;
    match Dispatch(f, s, b)
    case Consume(t) =>
      if s.phase == ArrReadElem {
        pieces := BufferOne(f, s, b, t);
      } else {
        pieces := [Copied([b])];
        CopyOne(f, s, b, t);
      }
    case Redo(t) =>
      if s.phase == ArrReadElem {
        pieces := [Shaped(s.elem.buf)];
        CompleteScalar(f, s, t);
      } else {
        pieces := [];
        FreshIsPartial();
        Nothing(f, s, t);
      }
  }

  lemma FreshIsPartial()
    ensures Partial(FRESH_ELEM)
  {
  }

  // ---------- whole runs ----------

  lemma {:induction false} OfConcat(f: bytes -> bytes, a: seq<Piece>, b: seq<Piece>)
    ensures InputOf(a + b) == InputOf(a) + InputOf(b)
    ensures OutputOf(f, a + b) == OutputOf(f, a) + OutputOf(f, b)
  {
    if a == [] {
      assert a + b == b;
    } else {
      assert (a + b)[1..] == a[1..] + b;
      OfConcat(f, a[1..], b);
    }
  }

  lemma Chain(a: bytes, x: bytes, i: bytes, b: bytes, y: bytes, j: bytes, c: bytes)
    requires a + x == i + b && b + y == j + c
    ensures a + (x + y) == (i + j) + c
  {
    calc {
      a + (x + y);
      (a + x) + y;
      (i + b) + y;
      i + (b + y);
      i + (j + c);
      (i + j) + c;
    }
  }

  lemma Compose(f: bytes -> bytes, s: State, x: bytes, t: State, p: seq<Piece>, y: bytes, u: State, q: seq<Piece>)
    requires Accounts(f, s, x, t, p) && Accounts(f, t, y, u, q)
    ensures Accounts(f, s, x + y, u, p + q)
  {
    hide Inv, InputOf, OutputOf, Framed;
    OfConcat(f, p, q);
    Chain(Pending(s), x, InputOf(p), Pending(t), y, InputOf(q), Pending(u));
    assert (s.out + OutputOf(f, p)) + OutputOf(f, q) == s.out + (OutputOf(f, p) + OutputOf(f, q));
  }

  /** A byte that is dispatched again meets a phase nearer to consuming it. */
  lemma DispatchProgress(f: bytes -> bytes, s: State, b: byte)
    ensures match Dispatch(f, s, b)
            case Consume(t) => !(t.phase == ArrReadElem && t.elem.kind == Unknown)
            case Redo(t) => Rank(t.phase) < Rank(s.phase)
  {
    hide DecodedKeyIsHits, ReadElem, AtSkipValue, AtExpectValue;
    match s.phase
    case SkipValue => SkipProgress(s, b);
    case ObjExpectValue => ValueProgress(s, b);
    case ArrReadElem => ElemProgress(f, s, b);
    case _ =>
  }

  lemma SkipProgress(s: State, b: byte)
    requires s.phase == SkipValue
    ensures match AtSkipValue(s, b) case Consume(t) => t.phase != ArrReadElem case Redo(t) => t.phase == ObjExpectComma
  {
  }

  lemma ValueProgress(s: State, b: byte)
    requires s.phase == ObjExpectValue
    ensures AtExpectValue(s, b).phase != ArrReadElem
  {
  }

  lemma ElemProgress(f: bytes -> bytes, s: State, b: byte)
    requires s.phase == ArrReadElem
    ensures match ReadElem(f, s, b)
            case Consume(t) => !(t.phase == ArrReadElem && t.elem.kind == Unknown)
            case Redo(t) => t.phase == ArrExpectComma
  {
  }

  lemma {:induction false} StepAccounts(f: bytes -> bytes, s: State, b: byte) returns (pieces: seq<Piece>)
    requires Inv(s) && (s.phase == ArrReadElem && s.elem.kind == Unknown ==> !IsWs(b) && b != RBRACKET)
    ensures Accounts(f, s, [b], Step(f, s, b), pieces)
    ensures !(Step(f, s, b).phase == ArrReadElem && Step(f, s, b).elem.kind == Unknown)
    decreases Rank(s.phase)
  {
    DispatchProgress(f, s, b);
    hide Accounts, Partial, Dispatch;
    pieces := DispatchAccounts(f, s, b);
    match Dispatch(f, s, b)
    case Consume(t) =>
    case Redo(t) =>
      AccountsInv(f, s, [], t, pieces);
      var rest := StepAccounts(f, t, b);
      Compose(f, s, [], t, pieces, [b], Step(f, t, b), rest);
      assert [] + [b] == [b];
      pieces := pieces + rest;
  }

  lemma AccountsInv(f: bytes -> bytes, s: State, x: bytes, t: State, p: seq<Piece>)
    requires Accounts(f, s, x, t, p)
    ensures Inv(t)
  {
  }

  lemma {:induction false} RunAccounts(f: bytes -> bytes, s: State, input: bytes) returns (pieces: seq<Piece>)
    requires Inv(s) && !(s.phase == ArrReadElem && s.elem.kind == Unknown)
    ensures Accounts(f, s, input, Run(f, s, input), pieces)
    decreases |input|
  {
    if input == [] {
      pieces := [];
    } else {
      var t := Step(f, s, input[0]);
      pieces := StepAccounts(f, s, input[0]);
      var rest := RunAccounts(f, t, input[1..]);
      Compose(f, s, [input[0]], t, pieces, input[1..], Run(f, t, input[1..]), rest);
      assert [input[0]] + input[1..] == input;
      pieces := pieces + rest;
    }
  }

  /** On every input whatever, the bytes read so far are, in order, stretches
      forwarded verbatim, complete elements emitted only as `f` of them, and the one
      pending element, of which nothing has been emitted. */
  lemma Conservation(f: bytes -> bytes, input: bytes) returns (pieces: seq<Piece>)
    ensures var t := Run(f, START, input);
            input == InputOf(pieces) + Pending(t) && t.out == OutputOf(f, pieces) && AllFramed(pieces) && Inv(t)
  {
    pieces := RunAccounts(f, START, input);
    assert Pending(START) + input == input;
    assert START.out + OutputOf(f, pieces) == OutputOf(f, pieces);
  }
}
