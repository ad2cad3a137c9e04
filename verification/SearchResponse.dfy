/**
  The main theorem about the streaming transform: over every well-formed response,
  and however it is cut into chunks, it emits the response with exactly the
  elements of `hits.hits` shaped.
*/
module SearchResponse {
  import opened Bytes
  import opened JsonText
  import opened SearchScan
  import opened SearchTree
  import JsonSound

  lemma Assoc(a: bytes, b: bytes, c: bytes)
    ensures a + (b + c) == (a + b) + c
  {
  }

  /** Whitespace and a delimiter after an element or a member end a bare scalar. */
  lemma PostEnds(post: bytes, t: bytes)
    requires AllWs(post) && t != []
    ensures (t[0] == COMMA || t[0] == RBRACKET) ==> EndsElement(post + t)
    ensures (t[0] == COMMA || t[0] == RBRACE) ==> EndsSkipped(post + t)
  {
    if post != [] {
      assert post[0] in post;
    }
  }

  lemma ArrayStep(f: bytes -> bytes, s: State)
    requires s.phase == ArrExpectComma
    ensures Step(f, s, COMMA) == s.(phase := ArrExpectElem, out := s.out + [COMMA])
    ensures Step(f, s, RBRACKET) == s.(phase := Passthrough, out := s.out + [RBRACKET])
  {
    hide DecodedKeyIsHits, Finish;
  }

  /** In front of the first element: each element is shaped, the commas and the
      whitespace between them are kept, and so is all that follows the bracket. */
  lemma {:induction false} RunItems(f: bytes -> bytes, s: State, items: Items, k: bytes)
    requires s.phase == ArrExpectElem && WfItems(items)
    ensures Run(f, s, PrintItems(items, k)).out == s.out + ShapeItems(f, items, k)
    decreases items
  {
    hide Run, Step;
    var t := AfterItem(items, k);
    PostEnds(items.post, t);
    RunWs(f, s, items.pre, Print(items.v, items.post + t));
    var s1 := s.(out := s.out + items.pre);
    var s2 := RunElement(f, s1, items.v, items.post + t);
    RunWs(f, s2, items.post, t);
    var s3 := s2.(out := s2.out + items.post);
    ArrayStep(f, s3);
    match items
    case LastItem(_, _, _) =>
      RunByte(f, s3, RBRACKET, k);
      RunPassthrough(f, Step(f, s3, RBRACKET), k);
      RegroupItem(s.out, items.pre, f(Text(items.v)), items.post, [RBRACKET], k);
    case Item(_, _, _, rest) =>
      RunByte(f, s3, COMMA, PrintItems(rest, k));
      RunItems(f, Step(f, s3, COMMA), rest, k);
      RegroupItem(s.out, items.pre, f(Text(items.v)), items.post, [COMMA], ShapeItems(f, rest, k));
  }

  lemma RegroupItem(o: bytes, a: bytes, b: bytes, c: bytes, d: bytes, e: bytes)
    ensures o + (a + (b + (c + (d + e)))) == ((((o + a) + b) + c) + d) + e
  {
    Assoc(c, d, e);
    Assoc(b, c + d, e);
    Assoc(a, b + (c + d), e);
    Assoc(o, a + (b + (c + d)), e);
    assert o + (a + (b + (c + d))) == (((o + a) + b) + c) + d;
  }

  // ---------- members ----------

  /** A member's text up to its value. */
  function MemberHead(m: Members): bytes {
    m.pre + ([QUOTE] + PrintUnits(m.key, m.mid + ([COLON] + m.vpre)))
  }

  lemma MemberHeadSplit(m: Members, y: bytes)
    ensures m.pre + ([QUOTE] + PrintUnits(m.key, m.mid + ([COLON] + (m.vpre + y)))) == MemberHead(m) + y
  {
    var head := m.mid + ([COLON] + m.vpre);
    assert m.mid + ([COLON] + (m.vpre + y)) == head + y;
    PrintUnitsAppends(m.key, head);
    PrintUnitsAppends(m.key, head + y);
    var p := PrintUnits(m.key, []);
    Assoc(p, head, y);
    Assoc([QUOTE], p + head, y);
    Assoc(m.pre, [QUOTE] + (p + head), y);
  }

  lemma ColonStep(f: bytes -> bytes, s: State)
    requires s.phase == ObjExpectColon
    ensures Step(f, s, COLON) == s.(phase := ObjExpectValue, out := s.out + [COLON])
  {
    hide DecodedKeyIsHits, Finish;
  }

  /** From a member's first byte to its value. */
  lemma RunToValue(f: bytes -> bytes, s: State, m: Members, x: bytes) returns (t: State)
    requires s.phase == ObjExpectKey && WfMembers(m)
    ensures Run(f, s, MemberHead(m) + x) == Run(f, t, x)
    ensures t.phase == ObjExpectValue && t.level == s.level && t.keyIsHits == KeyIsHits(m.key)
    ensures t.out == s.out + MemberHead(m)
  {
    hide Run, Step, KeyIsHits;
    MemberHeadSplit(m, x);
    var rest := [COLON] + (m.vpre + x);
    RunWs(f, s, m.pre, [QUOTE] + PrintUnits(m.key, m.mid + rest));
    var s1 := s.(out := s.out + m.pre);
    var s2 := RunQuotedKey(f, s1, m.key, m.mid + rest);
    RunWs(f, s2, m.mid, rest);
    var s3 := s2.(out := s2.out + m.mid);
    RunByte(f, s3, COLON, m.vpre + x);
    ColonStep(f, s3);
    var s4 := Step(f, s3, COLON);
    RunWs(f, s4, m.vpre, x);
    t := s4.(out := s4.out + m.vpre);
    PrintUnitsAppends(m.key, m.mid + ([COLON] + m.vpre));
    RegroupHead(s.out, m.pre, [QUOTE], PrintUnits(m.key, []), m.mid, [COLON], m.vpre);
  }

  lemma RegroupHead(o: bytes, a: bytes, b: bytes, c: bytes, d: bytes, e: bytes, g: bytes)
    ensures ((((o + a) + (b + c)) + d) + e) + g == o + (a + (b + (c + (d + (e + g)))))
  {
    Assoc(d, e, g);
    Assoc(o + a, b + c, d);
    assert ((((o + a) + (b + c)) + d) + e) + g == (o + a) + ((b + c) + ((d + e) + g));
    Assoc(b, c, (d + e) + g);
    Assoc(o, a, b + (c + ((d + e) + g)));
  }

  lemma ObjectStep(f: bytes -> bytes, s: State)
    requires s.phase == ObjExpectComma
    ensures Step(f, s, COMMA) == s.(phase := ObjExpectKey, out := s.out + [COMMA])
    ensures Step(f, s, RBRACE) == s.(phase := Passthrough, out := s.out + [RBRACE])
  {
    hide DecodedKeyIsHits, Finish;
  }

  lemma HitsValueStep(f: bytes -> bytes, s: State, b: byte)
    requires s.phase == ObjExpectValue && s.keyIsHits && !IsWs(b)
    ensures Step(f, s, b) == s.(out := s.out + [b],
              level := if s.level == 1 && b == LBRACE then 2 else s.level,
              phase := if s.level == 1 && b == LBRACE then ObjExpectKey
                       else if s.level == 2 && b == LBRACKET then ArrExpectElem else Passthrough)
  {
    hide DecodedKeyIsHits, Finish;
  }

  lemma EmptyStep(f: bytes -> bytes, s: State)
    requires s.phase == ObjExpectKey || s.phase == ArrExpectElem
    ensures var b := if s.phase == ObjExpectKey then RBRACE else RBRACKET;
            Step(f, s, b) == s.(phase := Passthrough, out := s.out + [b])
  {
    hide DecodedKeyIsHits, Finish;
  }

  /** An empty `hits` object or array is forwarded as it is, and so is the rest. */
  lemma RunEmpty(f: bytes -> bytes, s: State, ws: bytes, k: bytes)
    requires (s.phase == ObjExpectKey || s.phase == ArrExpectElem) && AllWs(ws)
    ensures var x := ws + ([if s.phase == ObjExpectKey then RBRACE else RBRACKET] + k);
            Run(f, s, x) == s.(phase := Passthrough, out := s.out + x)
  {
    hide Run, Step;
    var b := if s.phase == ObjExpectKey then RBRACE else RBRACKET;
    RunWs(f, s, ws, [b] + k);
    var s1 := s.(out := s.out + ws);
    RunByte(f, s1, b, k);
    EmptyStep(f, s1);
    RunPassthrough(f, Step(f, s1, b), k);
    assert ((s.out + ws) + [b]) + k == s.out + (ws + ([b] + k));
  }

  /** A `hits` value that is neither the object nor the array looked for. */
  lemma RunVerbatimHits(f: bytes -> bytes, s: State, v: Value, k: bytes)
    requires s.phase == ObjExpectValue && s.keyIsHits && Wf(v) && (s.level == 1 || s.level == 2)
    requires !(s.level == 1 && v.Obj?) && !(s.level == 2 && v.Arr?)
    ensures Run(f, s, Print(v, k)).out == s.out + Print(v, k)
  {
    hide Run, Step;
    var x := Print(v, k);
    TextSplit(v, k);
    RunByte(f, s, x[0], x[1..]);
    HitsValueStep(f, s, x[0]);
    var s1 := Step(f, s, x[0]);
    if s.level == 1 && v.EmptyObj? {
      assert x[1..] == v.ws + ([RBRACE] + k);
      RunEmpty(f, s1, v.ws, k);
    } else if s.level == 2 && v.EmptyArr? {
      assert x[1..] == v.ws + ([RBRACKET] + k);
      RunEmpty(f, s1, v.ws, k);
    } else {
      if v.Lit? || v.Num? {
        ScalarText(v);
        assert Text(v)[0] in Text(v);
      }
      RunPassthrough(f, s1, x[1..]);
    }
    Assoc(s.out, [x[0]], x[1..]);
  }

  /** The value of a member named `hits`, and all that follows it. */
  lemma {:induction false} RunHitsValue(f: bytes -> bytes, s: State, m: Members, k: bytes)
    requires s.phase == ObjExpectValue && s.keyIsHits && KeyIsHits(m.key) && WfMembers(m)
    requires s.level == 1 || s.level == 2
    ensures Run(f, s, Print(m.v, m.post + AfterMember(m, k))).out == s.out + ShapeFromValue(f, s.level, m, k)
    decreases m, 0
  {
    hide Run, Step, KeyIsHits;
    var after := m.post + AfterMember(m, k);
    if s.level == 1 && m.v.Obj? {
      RunByte(f, s, LBRACE, PrintMembers(m.v.members, after));
      HitsValueStep(f, s, LBRACE);
      RunMembers(f, Step(f, s, LBRACE), m.v.members, after);
      Assoc(s.out, [LBRACE], ShapeMembers(f, 2, m.v.members, after));
    } else if s.level == 2 && m.v.Arr? {
      RunByte(f, s, LBRACKET, PrintItems(m.v.items, after));
      HitsValueStep(f, s, LBRACKET);
      RunItems(f, Step(f, s, LBRACKET), m.v.items, after);
      Assoc(s.out, [LBRACKET], ShapeItems(f, m.v.items, after));
    } else {
      RunVerbatimHits(f, s, m.v, after);
    }
  }

  /** The value of any other member, and all that follows it. */
  lemma {:induction false} RunOtherValue(f: bytes -> bytes, s: State, m: Members, k: bytes)
    requires s.phase == ObjExpectValue && !s.keyIsHits && !KeyIsHits(m.key) && WfMembers(m)
    requires s.level == 1 || s.level == 2
    ensures Run(f, s, Print(m.v, m.post + AfterMember(m, k))).out == s.out + ShapeFromValue(f, s.level, m, k)
    decreases m, 0
  {
    hide Run, Step, KeyIsHits;
    var t := AfterMember(m, k);
    PostEnds(m.post, t);
    var s1 := RunSkippedValue(f, s, m.v, m.post + t);
    RunWs(f, s1, m.post, t);
    var s2 := s1.(out := s1.out + m.post);
    ObjectStep(f, s2);
    if m.Member? {
      RunByte(f, s2, COMMA, PrintMembers(m.rest, k));
      RunMembers(f, Step(f, s2, COMMA), m.rest, k);
      RegroupValue(s.out, m.v, m.post, [COMMA], ShapeMembers(f, s.level, m.rest, k));
    } else {
      RunByte(f, s2, RBRACE, k);
      RunPassthrough(f, Step(f, s2, RBRACE), k);
      RegroupValue(s.out, m.v, m.post, [RBRACE], k);
    }
  }

  lemma RegroupValue(o: bytes, v: Value, a: bytes, b: bytes, c: bytes)
    ensures (((o + Text(v)) + a) + b) + c == o + Print(v, a + (b + c))
  {
    hide Print;
    PrintAppends(v, a + (b + c));
    RegroupFour(o, Text(v), a, b, c);
  }

  lemma RegroupFour(o: bytes, x: bytes, a: bytes, b: bytes, c: bytes)
    ensures (((o + x) + a) + b) + c == o + (x + (a + (b + c)))
  {
    Assoc(o + x, a, b);
    Assoc(o + x, a + b, c);
    Assoc(a, b, c);
    Assoc(o, x, a + (b + c));
  }

  lemma {:induction false} RunMembers(f: bytes -> bytes, s: State, m: Members, k: bytes)
    requires s.phase == ObjExpectKey && (s.level == 1 || s.level == 2) && WfMembers(m)
    ensures Run(f, s, PrintMembers(m, k)).out == s.out + ShapeMembers(f, s.level, m, k)
    decreases m, 1
  {
    hide Run, Step, KeyIsHits;
    var x := Print(m.v, m.post + AfterMember(m, k));
    var y := ShapeFromValue(f, s.level, m, k);
    MemberHeadSplit(m, x);
    MemberHeadSplit(m, y);
    var t := RunToValue(f, s, m, x);
    if KeyIsHits(m.key) {
      RunHitsValue(f, t, m, k);
    } else {
      RunOtherValue(f, t, m, k);
    }
    Assoc(s.out, MemberHead(m), y);
  }

  /** The response as the client must see it. */
  function ShapeDocument(f: bytes -> bytes, pre: bytes, v: Value, post: bytes): bytes {
    pre + ShapeValue(f, v, post)
  }

  lemma RootStep(f: bytes -> bytes, s: State, b: byte)
    requires s.phase == SeekRoot && !IsWs(b)
    ensures Step(f, s, b) == if b == LBRACE then s.(level := 1, phase := ObjExpectKey, out := s.out + [b])
                             else s.(phase := Passthrough, out := s.out + [b])
  {
    hide DecodedKeyIsHits, Finish;
  }

  lemma RunRoot(f: bytes -> bytes, s: State, v: Value, k: bytes)
    requires s.phase == SeekRoot && Wf(v)
    ensures Run(f, s, Print(v, k)).out == s.out + ShapeValue(f, v, k)
  {
    hide Run, Step;
    var x := Print(v, k);
    TextSplit(v, k);
    RunByte(f, s, x[0], x[1..]);
    RootStep(f, s, x[0]);
    var s1 := Step(f, s, x[0]);
    if v.Obj? {
      assert x[1..] == PrintMembers(v.members, k);
      RunMembers(f, s1, v.members, k);
      Assoc(s.out, [LBRACE], ShapeMembers(f, 1, v.members, k));
    } else if v.EmptyObj? {
      assert x[1..] == v.ws + ([RBRACE] + k);
      RunEmpty(f, s1, v.ws, k);
      Assoc(s.out, [x[0]], x[1..]);
    } else {
      if v.Lit? || v.Num? {
        ScalarText(v);
        assert Text(v)[0] in Text(v);
      }
      RunPassthrough(f, s1, x[1..]);
      Assoc(s.out, [x[0]], x[1..]);
    }
  }

  /** Over every well-formed response, for every `f` and every way of cutting it into
      chunks, the bytes emitted are the response with exactly the elements of
      `hits.hits` replaced by what `f` makes of their text. */
  lemma StreamShapesDocument(f: bytes -> bytes, chunks: seq<bytes>, pre: bytes, v: Value, post: bytes)
    requires JsonSound.DocumentOf(Concat(chunks), pre, v, post)
    ensures FeedAll(f, START, chunks) == ShapeDocument(f, pre, v, post)
  {
    hide Run, Step;
    ChunkIndependence(f, START, chunks);
    RunWs(f, START, pre, Print(v, post));
    assert START.out + pre == pre;
    RunRoot(f, START.(out := pre), v, post);
  }
}
