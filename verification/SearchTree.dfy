/**
  What the streaming transform does to a well-formed response, stated on its
  syntax tree: the elements of the first `hits.hits` array are replaced by what `f`
  makes of their text, and every other byte is forwarded as it came.
*/
module SearchTree {
  import opened Bytes
  import opened JsonText
  import opened JsonNest
  import opened SearchScan
  import JsonParse
  import JsonScan
  import JsonString

  predicate KeyIsHits(u: Units) {
    JsonString.DecodeUnits(u) == Some(HITS)
  }

  // ---------- the response with its hits shaped, in front of a continuation ----------

  function AfterShapedItem(f: bytes -> bytes, items: Items, k: bytes): bytes
    decreases items, 0
  {
    match items
    case LastItem(_, _, _) => [RBRACKET] + k
    case Item(_, _, _, rest) => [COMMA] + ShapeItems(f, rest, k)
  }

  function ShapeItems(f: bytes -> bytes, items: Items, k: bytes): bytes
    decreases items, 1
  {
    items.pre + (f(Text(items.v)) + (items.post + AfterShapedItem(f, items, k)))
  }

  /** The value of a member and all that follows it. Only the first member named
      `hits` is looked into; what follows it is verbatim. */
  function ShapeFromValue(f: bytes -> bytes, level: nat, m: Members, k: bytes): bytes
    decreases m, 0
  {
    if KeyIsHits(m.key) then
      var after := m.post + AfterMember(m, k);
      if level == 1 && m.v.Obj? then [LBRACE] + ShapeMembers(f, 2, m.v.members, after)
      else if level == 2 && m.v.Arr? then [LBRACKET] + ShapeItems(f, m.v.items, after)
      else Print(m.v, after)
    else
      Print(m.v, m.post +
        match m
        case LastMember(_, _, _, _, _, _) => [RBRACE] + k
        case Member(_, _, _, _, _, _, rest) => [COMMA] + ShapeMembers(f, level, rest, k))
  }

  /** The members of the root object (`level` 1) or of its `hits` (`level` 2). */
  function ShapeMembers(f: bytes -> bytes, level: nat, m: Members, k: bytes): bytes
    decreases m, 1
  {
    m.pre + ([QUOTE] + PrintUnits(m.key, m.mid + ([COLON] + (m.vpre + ShapeFromValue(f, level, m, k)))))
  }

  function ShapeValue(f: bytes -> bytes, v: Value, k: bytes): bytes {
    if v.Obj? then [LBRACE] + ShapeMembers(f, 1, v.members, k) else Print(v, k)
  }

  // ---------- stretches of input ----------

  predicate SkipsWs(p: Phase) {
    p == SeekRoot || p == ObjExpectKey || p == ObjExpectColon || p == ObjExpectValue
    || p == ObjExpectComma || p == ArrExpectElem || p == ArrExpectComma
  }

  lemma {:induction false} RunWs(f: bytes -> bytes, s: State, ws: bytes, k: bytes)
    requires AllWs(ws) && SkipsWs(s.phase)
    ensures Run(f, s, ws + k) == Run(f, s.(out := s.out + ws), k)
    decreases |ws|
  {
    if ws == [] {
      assert ws + k == k;
      assert s.out + ws == s.out;
    } else {
      hide Step, IsWs;
      assert ws[0] in ws && forall b | b in ws[1..] :: b in ws;
      assert (ws + k)[1..] == ws[1..] + k;
      WsStep(f, s, ws[0]);
      RunWs(f, Push(s, ws[0]), ws[1..], k);
      assert (s.out + [ws[0]]) + ws[1..] == s.out + ws;
    }
  }

  lemma WsStep(f: bytes -> bytes, s: State, b: byte)
    requires IsWs(b) && SkipsWs(s.phase)
    ensures Step(f, s, b) == Push(s, b)
  {
  }

  lemma RunByte(f: bytes -> bytes, s: State, b: byte, k: bytes)
    ensures Run(f, s, [b] + k) == Run(f, Step(f, s, b), k)
  {
    assert ([b] + k)[1..] == k;
  }

  /** Reading a key: everything is forwarded, and its raw bytes are kept. */
  lemma {:induction false} RunKey(f: bytes -> bytes, s: State, x: bytes, raw: bytes, k: bytes) returns (t: State)
    requires s.phase == ObjReadKey && StrEnd(s.keyEsc, x) == Some(k)
    requires x == raw + ([QUOTE] + k)
    ensures Run(f, s, x) == Run(f, t, k)
    ensures t.phase == ObjExpectColon && t.level == s.level && t.out == s.out + raw + [QUOTE]
    ensures t.keyIsHits == DecodedKeyIsHits(s.keyBuf + raw)
    decreases |x|
  {
    hide Step;
    KeyStep(f, s, x[0]);
    if raw == [] {
      assert x[0] == QUOTE && x[1..] == k;
      t := Step(f, s, QUOTE);
      assert s.keyBuf + raw == s.keyBuf;
      assert s.out + raw + [QUOTE] == s.out + [QUOTE];
    } else {
      assert x[0] == raw[0] && x[1..] == raw[1..] + ([QUOTE] + k);
      t := RunKey(f, Step(f, s, x[0]), x[1..], raw[1..], k);
      assert (s.keyBuf + [raw[0]]) + raw[1..] == s.keyBuf + raw;
      assert s.out + [raw[0]] + raw[1..] + [QUOTE] == s.out + raw + [QUOTE];
    }
  }

  lemma KeyStep(f: bytes -> bytes, s: State, b: byte)
    requires s.phase == ObjReadKey
    ensures var p := Push(s, b);
            Step(f, s, b) ==
            if !s.keyEsc && b == QUOTE then p.(keyIsHits := DecodedKeyIsHits(s.keyBuf), phase := ObjExpectColon)
            else p.(keyEsc := !s.keyEsc && b == BACKSLASH, keyBuf := s.keyBuf + [b])
  {
    hide DecodedKeyIsHits;
  }

  lemma KeyDecodes(u: Units, raw: bytes)
    requires WfUnits(u) && PrintUnits(u, []) == raw + [QUOTE]
    ensures DecodedKeyIsHits(raw) == KeyIsHits(u)
  {
    JsonString.ReadBodyOver(u, []);
  }

  lemma OpenKey(f: bytes -> bytes, s: State)
    requires s.phase == ObjExpectKey
    ensures Step(f, s, QUOTE) == s.(out := s.out + [QUOTE], keyBuf := [], keyEsc := false, phase := ObjReadKey)
  {
  }

  /** From the opening quote of a key to the byte after its closing one. */
  lemma RunQuotedKey(f: bytes -> bytes, s: State, u: Units, k: bytes) returns (t: State)
    requires s.phase == ObjExpectKey && WfUnits(u)
    ensures Run(f, s, [QUOTE] + PrintUnits(u, k)) == Run(f, t, k)
    ensures t.phase == ObjExpectColon && t.level == s.level && t.keyIsHits == KeyIsHits(u)
    ensures t.out == s.out + ([QUOTE] + PrintUnits(u, []))
  {
    hide Step, Run, KeyIsHits, DecodedKeyIsHits, StrEnd, PrintUnits;
    var raw := JsonParse.UnitsEnd(u);
    RunByte(f, s, QUOTE, PrintUnits(u, k));
    OpenKey(f, s);
    var s1 := Step(f, s, QUOTE);
    PrintUnitsAppends(u, k);
    assert raw + [QUOTE] + k == raw + ([QUOTE] + k);
    StrEndOver(u, k);
    t := RunKey(f, s1, PrintUnits(u, k), raw, k);
    KeyDecodes(u, raw);
    assert [] + raw == raw;
    assert s.out + [QUOTE] + raw + [QUOTE] == s.out + ([QUOTE] + (raw + [QUOTE]));
  }

  // ---------- a value that is skipped ----------

  /** A string at nesting depth 0 is forwarded to its closing quote. */
  lemma {:induction false} RunSkipString(f: bytes -> bytes, s: State, x: bytes, k: bytes) returns (t: State)
    requires s.phase == SkipValue && s.skip.inStr && s.skip.depth == 0
    requires StrEnd(s.skip.esc, x) == Some(k)
    ensures Run(f, s, x) == Run(f, t, k)
    ensures t.phase == ObjExpectComma && t.level == s.level
    ensures |k| <= |x| && x[|x| - |k|..] == k && t.out == s.out + x[..|x| - |k|]
    decreases |x|
  {
    hide Step;
    SkipStringStep(f, s, x[0]);
    if !s.skip.esc && x[0] == QUOTE {
      t := Step(f, s, QUOTE);
      assert x[..1] == [QUOTE];
    } else {
      t := RunSkipString(f, Step(f, s, x[0]), x[1..], k);
      ForwardOne(s.out, x, k);
    }
  }

  lemma SkipStringStep(f: bytes -> bytes, s: State, b: byte)
    requires s.phase == SkipValue && s.skip.inStr && s.skip.depth == 0
    ensures Step(f, s, b) ==
            if !s.skip.esc && b == QUOTE then
              s.(skip := s.skip.(inStr := false), out := s.out + [b], phase := ObjExpectComma)
            else s.(skip := s.skip.(esc := !s.skip.esc && b == BACKSLASH), out := s.out + [b])
  {
  }

  /** Forwarding `x`'s first byte and then its tail forwards `x`. */
  lemma ForwardOne(o: bytes, x: bytes, k: bytes)
    requires x != [] && |k| <= |x| - 1 && x[1..][|x| - 1 - |k|..] == k
    ensures (o + [x[0]]) + x[1..][..|x| - 1 - |k|] == o + x[..|x| - |k|]
    ensures x[|x| - |k|..] == k
  {
    assert x[..|x| - |k|] == [x[0]] + x[1..][..|x| - 1 - |k|];
  }

  function SkipNest(k: Skip): Nest {
    Nest(k.depth, k.inStr, k.esc)
  }

  /** One byte inside brackets moves the skip cursor as `NestStep` does. */
  lemma SkipNestedStep(f: bytes -> bytes, s: State, b: byte)
    requires s.phase == SkipValue && s.skip.depth > 0 && (!s.skip.inStr ==> !s.skip.esc)
    ensures var m := NestStep(SkipNest(s.skip), b);
            Step(f, s, b) == s.(skip := s.skip.(depth := m.depth, inStr := m.inStr, esc := m.esc), out := s.out + [b],
                                phase := if m.depth == 0 then ObjExpectComma else SkipValue)
    ensures var m := NestStep(SkipNest(s.skip), b); !m.inStr ==> !m.esc
  {
    hide DecodedKeyIsHits;
  }

  /** Inside brackets everything is forwarded to the bracket that closes them. */
  lemma {:induction false} RunSkipNested(f: bytes -> bytes, s: State, x: bytes, k: bytes) returns (t: State)
    requires s.phase == SkipValue && s.skip.depth > 0 && (!s.skip.inStr ==> !s.skip.esc)
    requires NestEnd(SkipNest(s.skip), x) == Some(k)
    ensures Run(f, s, x) == Run(f, t, k)
    ensures t.phase == ObjExpectComma && t.level == s.level
    ensures |k| <= |x| && x[|x| - |k|..] == k && t.out == s.out + x[..|x| - |k|]
    decreases |x|
  {
    hide Step, NestStep;
    SkipNestedStep(f, s, x[0]);
    var s1 := Step(f, s, x[0]);
    if NestStep(SkipNest(s.skip), x[0]).depth == 0 {
      t := s1;
      assert x[..1] == [x[0]];
    } else {
      t := RunSkipNested(f, s1, x[1..], k);
      ForwardOne(s.out, x, k);
    }
  }

  predicate ScalarByte(b: byte) {
    !IsWs(b) && b != COMMA && b != RBRACE && b != RBRACKET
  }

  /** A bare scalar is forwarded up to the delimiter it must not consume. */
  lemma {:induction false} RunSkipScalar(f: bytes -> bytes, s: State, p: bytes, k: bytes)
    requires s.phase == SkipValue && !s.skip.inStr && s.skip.depth == 0
    requires forall b | b in p :: ScalarByte(b)
    requires k != [] && (IsWs(k[0]) || k[0] == COMMA || k[0] == RBRACE)
    ensures Run(f, s, p + k) == Run(f, s.(out := s.out + p, phase := ObjExpectComma), k)
    decreases |p|
  {
    if p == [] {
      assert p + k == k;
      assert s.out + p == s.out;
      assert k == [k[0]] + k[1..];
    } else {
      hide Step;
      assert p[0] in p && forall b | b in p[1..] :: b in p;
      assert (p + k)[1..] == p[1..] + k;
      SkipScalarStep(f, s, p[0]);
      RunSkipScalar(f, Push(s, p[0]), p[1..], k);
      assert (s.out + [p[0]]) + p[1..] == s.out + p;
    }
  }

  lemma SkipScalarStep(f: bytes -> bytes, s: State, b: byte)
    requires s.phase == SkipValue && !s.skip.inStr && s.skip.depth == 0 && ScalarByte(b)
    ensures Step(f, s, b) == Push(s, b)
  {
  }

  /** A number or a word: its bytes, none of which ends it early. */
  lemma ScalarText(v: Value)
    requires Wf(v) && (v.Lit? || v.Num?)
    ensures Text(v) != [] && forall b | b in Text(v) :: ScalarByte(b) && b != QUOTE && !Opens(b)
  {
    if v.Num? {
      var n := v.n;
      assert n.whole[0] in Text(v);
      forall b | b in Text(v)
        ensures ScalarByte(b) && b != QUOTE && !Opens(b)
      {
        assert b in n.whole || b in n.frac || b == DOT || b == MINUS
          || (n.exp.Exp? && (b == n.exp.e || b in n.exp.sign || b in n.exp.digits));
      }
    }
  }

  lemma ScalarTail(v: Value)
    requires Wf(v) && (v.Lit? || v.Num?)
    ensures Text(v) != [] && ScalarByte(Text(v)[0]) && Text(v)[0] != QUOTE && !Opens(Text(v)[0])
    ensures forall b | b in Text(v)[1..] :: ScalarByte(b)
  {
    hide Print, Wf;
    ScalarText(v);
    assert Text(v)[0] in Text(v) && forall b | b in Text(v)[1..] :: b in Text(v);
  }

  predicate EndsSkipped(k: bytes) {
    k != [] && (IsWs(k[0]) || k[0] == COMMA || k[0] == RBRACE)
  }

  lemma BeginSkip(f: bytes -> bytes, s: State, b: byte)
    requires s.phase == ObjExpectValue && !s.keyIsHits && !IsWs(b)
    ensures Step(f, s, b) == s.(skip := SkipBegin(b), phase := SkipValue, out := s.out + [b])
  {
    hide DecodedKeyIsHits;
  }

  /** A bracketed value, split at its opening bracket. */
  lemma Bracketed(v: Value, k: bytes)
    requires Wf(v) && (v.EmptyArr? || v.Arr? || v.EmptyObj? || v.Obj?)
    ensures Print(v, k) != [] && Opens(Print(v, k)[0]) && NestEnd(OPENED, Print(v, k)[1..]) == Some(k)
  {
    hide NestEnd;
    match v
    case EmptyArr(ws) =>
      assert Print(v, k)[1..] == ws + ([RBRACKET] + k);
      NestInert(1, ws, [RBRACKET] + k);
      NestByte(OPENED, RBRACKET, k);
    case Arr(items) =>
      assert Print(v, k)[1..] == PrintItems(items, k);
      NestItems(1, items, k);
    case EmptyObj(ws) =>
      assert Print(v, k)[1..] == ws + ([RBRACE] + k);
      NestInert(1, ws, [RBRACE] + k);
      NestByte(OPENED, RBRACE, k);
    case Obj(members) =>
      assert Print(v, k)[1..] == PrintMembers(members, k);
      NestMembers(1, members, k);
  }

  /** `Text(v)` split at its first byte, in front of `k`. */
  lemma TextSplit(v: Value, k: bytes)
    requires Wf(v)
    ensures var x := Print(v, k);
            x != [] && Text(v) != [] && x == [x[0]] + x[1..] && x[0] == Text(v)[0] && x[1..] == Text(v)[1..] + k
            && Text(v) == [x[0]] + Text(v)[1..]
            && x[1..][..|x[1..]| - |k|] == Text(v)[1..] && !IsWs(x[0])
  {
    JsonScan.PrintHead(v, k);
    JsonScan.PrintHead(v, []);
    PrintAppends(v, k);
  }

  lemma RunSkippedScalar(f: bytes -> bytes, s: State, v: Value, k: bytes) returns (t: State)
    requires s.phase == SkipValue && Wf(v) && EndsSkipped(k)
    requires (v.Lit? || v.Num?) && Text(v) != [] && s.skip == SkipBegin(Text(v)[0])
    ensures Run(f, s, Text(v)[1..] + k) == Run(f, t, k)
    ensures t.phase == ObjExpectComma && t.level == s.level && t.out == s.out + Text(v)[1..]
  {
    hide Run, Print, Wf;
    ScalarTail(v);
    RunSkipScalar(f, s, Text(v)[1..], k);
    t := s.(out := s.out + Text(v)[1..], phase := ObjExpectComma);
  }

  lemma RunSkippedText(f: bytes -> bytes, s: State, v: Value, k: bytes) returns (t: State)
    requires s.phase == SkipValue && Wf(v) && EndsSkipped(k) && Text(v) != [] && s.skip == SkipBegin(Text(v)[0])
    ensures Run(f, s, Print(v, k)[1..]) == Run(f, t, k)
    ensures t.phase == ObjExpectComma && t.level == s.level && t.out == s.out + Text(v)[1..]
  {
    hide Run, NestEnd, StrEnd, EndsSkipped;
    var x := Print(v, k);
    TextSplit(v, k);
    if v.Str? {
      assert x[1..] == PrintUnits(v.units, k);
      StrEndOver(v.units, k);
      t := RunSkipString(f, s, x[1..], k);
    } else if v.Lit? || v.Num? {
      t := RunSkippedScalar(f, s, v, k);
    } else {
      Bracketed(v, k);
      t := RunSkipNested(f, s, x[1..], k);
    }
  }

  /** A member value that is not looked into is forwarded whole. */
  lemma RunSkippedValue(f: bytes -> bytes, s: State, v: Value, k: bytes) returns (t: State)
    requires s.phase == ObjExpectValue && !s.keyIsHits && Wf(v) && EndsSkipped(k)
    ensures Run(f, s, Print(v, k)) == Run(f, t, k)
    ensures t.phase == ObjExpectComma && t.level == s.level && t.out == s.out + Text(v)
  {
    hide Step, Run, Print, Wf, SkipBegin, EndsSkipped;
    var x := Print(v, k);
    TextSplit(v, k);
    RunByte(f, s, x[0], x[1..]);
    BeginSkip(f, s, x[0]);
    t := RunSkippedText(f, Step(f, s, x[0]), v, k);
    assert (s.out + [x[0]]) + Text(v)[1..] == s.out + ([x[0]] + Text(v)[1..]);
  }

  // ---------- an element that is framed ----------

  predicate EndsElement(k: bytes) {
    k != [] && (IsWs(k[0]) || k[0] == COMMA || k[0] == RBRACKET)
  }

  lemma BufferOne(o: bytes, x: bytes, k: bytes)
    requires x != [] && |k| <= |x| - 1
    ensures (o + [x[0]]) + x[1..][..|x| - 1 - |k|] == o + x[..|x| - |k|]
  {
    assert x[..|x| - |k|] == [x[0]] + x[1..][..|x| - 1 - |k|];
  }

  lemma ElemStringStep(f: bytes -> bytes, s: State, b: byte)
    requires s.phase == ArrReadElem && s.elem.kind == StrKind
    ensures var p := s.elem.(buf := s.elem.buf + [b]);
            Step(f, s, b) ==
            if s.elem.esc then s.(elem := p.(esc := false))
            else if b == BACKSLASH then s.(elem := p.(esc := true))
            else if b == QUOTE then Finish(f, s.(elem := p))
            else s.(elem := p)
  {
    hide DecodedKeyIsHits, Finish;
  }

  lemma {:induction false} RunElemString(f: bytes -> bytes, s: State, x: bytes, k: bytes) returns (t: State)
    requires s.phase == ArrReadElem && s.elem.kind == StrKind && StrEnd(s.elem.esc, x) == Some(k)
    ensures Run(f, s, x) == Run(f, t, k) && |k| <= |x|
    ensures t.phase == ArrExpectComma && t.out == s.out + f(s.elem.buf + x[..|x| - |k|])
    decreases |x|
  {
    hide Step;
    ElemStringStep(f, s, x[0]);
    if !s.elem.esc && x[0] == QUOTE {
      t := Step(f, s, QUOTE);
      assert x[..1] == [QUOTE];
    } else {
      t := RunElemString(f, Step(f, s, x[0]), x[1..], k);
      BufferOne(s.elem.buf, x, k);
    }
  }

  function ElemNest(e: Elem): Nest {
    Nest(e.depth, e.inStr, e.esc)
  }

  lemma ElemNestedStep(f: bytes -> bytes, s: State, b: byte)
    requires s.phase == ArrReadElem && s.elem.kind == StructKind && s.elem.depth > 0 && (!s.elem.inStr ==> !s.elem.esc)
    ensures var m := NestStep(ElemNest(s.elem), b);
            var t := s.(elem := s.elem.(buf := s.elem.buf + [b], depth := m.depth, inStr := m.inStr, esc := m.esc));
            Step(f, s, b) == if m.depth == 0 then Finish(f, t) else t
    ensures var m := NestStep(ElemNest(s.elem), b); !m.inStr ==> !m.esc
  {
    hide DecodedKeyIsHits, Finish;
  }

  lemma {:induction false} RunElemNested(f: bytes -> bytes, s: State, x: bytes, k: bytes) returns (t: State)
    requires s.phase == ArrReadElem && s.elem.kind == StructKind && s.elem.depth > 0 && (!s.elem.inStr ==> !s.elem.esc)
    requires NestEnd(ElemNest(s.elem), x) == Some(k)
    ensures Run(f, s, x) == Run(f, t, k) && |k| <= |x|
    ensures t.phase == ArrExpectComma && t.out == s.out + f(s.elem.buf + x[..|x| - |k|])
    decreases |x|
  {
    hide Step, NestStep;
    ElemNestedStep(f, s, x[0]);
    if NestStep(ElemNest(s.elem), x[0]).depth == 0 {
      t := Step(f, s, x[0]);
      assert x[..1] == [x[0]];
    } else {
      t := RunElemNested(f, Step(f, s, x[0]), x[1..], k);
      BufferOne(s.elem.buf, x, k);
    }
  }

  lemma ElemScalarStep(f: bytes -> bytes, s: State, b: byte)
    requires s.phase == ArrReadElem && s.elem.kind == ScalarKind
    ensures Step(f, s, b) ==
            if IsWs(b) || b == COMMA || b == RBRACKET then Step(f, Finish(f, s), b)
            else s.(elem := s.elem.(buf := s.elem.buf + [b]))
  {
    hide DecodedKeyIsHits;
  }

  lemma {:induction false} RunElemScalar(f: bytes -> bytes, s: State, p: bytes, k: bytes)
    requires s.phase == ArrReadElem && s.elem.kind == ScalarKind
    requires forall b | b in p :: ScalarByte(b)
    requires EndsElement(k)
    ensures Run(f, s, p + k) == Run(f, Finish(f, s.(elem := s.elem.(buf := s.elem.buf + p))), k)
    decreases |p|
  {
    hide Step;
    if p == [] {
      assert p + k == k;
      assert s.elem.buf + p == s.elem.buf;
      ElemScalarStep(f, s, k[0]);
    } else {
      assert p[0] in p && forall b | b in p[1..] :: b in p;
      assert (p + k)[1..] == p[1..] + k;
      ElemScalarStep(f, s, p[0]);
      RunElemScalar(f, Step(f, s, p[0]), p[1..], k);
      assert (s.elem.buf + [p[0]]) + p[1..] == s.elem.buf + p;
    }
  }

  lemma BeginElem(f: bytes -> bytes, s: State, b: byte)
    requires s.phase == ArrExpectElem && !IsWs(b) && b != RBRACKET
    ensures var t := s.(phase := ArrReadElem, elem := FRESH_ELEM.(buf := [b]));
            Step(f, s, b) ==
            if b == QUOTE then t.(elem := t.elem.(inStr := true, kind := StrKind))
            else if Opens(b) then t.(elem := t.elem.(depth := 1, kind := StructKind))
            else t.(elem := t.elem.(kind := ScalarKind))
  {
    hide DecodedKeyIsHits, Finish;
    assert FRESH_ELEM.buf + [b] == [b];
  }

  /** One element is framed exactly: its whole text, and nothing else, goes through `f`. */
  lemma RunElement(f: bytes -> bytes, s: State, v: Value, k: bytes) returns (t: State)
    requires s.phase == ArrExpectElem && Wf(v) && EndsElement(k)
    ensures Run(f, s, Print(v, k)) == Run(f, t, k)
    ensures t.phase == ArrExpectComma && t.out == s.out + f(Text(v))
  {
    hide Step, Run, NestEnd, StrEnd;
    var x := Print(v, k);
    TextSplit(v, k);
    JsonScan.PrintHead(v, k);
    RunByte(f, s, x[0], x[1..]);
    BeginElem(f, s, x[0]);
    var s1 := Step(f, s, x[0]);
    assert s1.out == s.out && s1.elem.buf == [x[0]];
    if v.Str? {
      assert x[1..] == PrintUnits(v.units, k);
      StrEndOver(v.units, k);
      t := RunElemString(f, s1, x[1..], k);
    } else if v.Lit? || v.Num? {
      ScalarText(v);
      assert Text(v)[0] in Text(v) && forall b | b in Text(v)[1..] :: b in Text(v);
      RunElemScalar(f, s1, Text(v)[1..], k);
      t := Finish(f, s1.(elem := s1.elem.(buf := s1.elem.buf + Text(v)[1..])));
    } else {
      Bracketed(v, k);
      t := RunElemNested(f, s1, x[1..], k);
    }
  }
}
