/**
  The grammar is unambiguous: a byte string is the text of at most one tree, so
  what a document denotes is a matter of its bytes alone.
*/
module JsonUnique {
  import opened Bytes
  import opened JsonText
  import opened JsonScan
  import opened JsonSound

  /** Equal concatenations with equal tails have equal heads. */
  lemma CancelTail(a: bytes, b: bytes, c: bytes)
    requires a + c == b + c
    ensures a == b
  {
    assert |a| == |b|;
    assert (a + c)[..|a|] == a && (b + c)[..|b|] == b;
  }

  lemma CancelHead(a: bytes, b: bytes, c: bytes)
    requires a + b == a + c
    ensures b == c
  {
    assert (a + b)[|a|..] == b && (a + c)[|a|..] == c;
  }

  /** Leading whitespace is determined: what follows does not start with any. */
  lemma SameWs(ws: bytes, ws': bytes, k: bytes, k': bytes)
    requires AllWs(ws) && AllWs(ws') && ws + k == ws' + k'
    requires SkipWs(k) == k && SkipWs(k') == k'
    ensures ws == ws' && k == k'
  {
    SkipWsOver(ws, k);
    SkipWsOver(ws', k');
    CancelTail(ws, ws', k);
  }

  lemma SameDigits(d: bytes, d': bytes, k: bytes, k': bytes)
    requires AllDigits(d) && AllDigits(d') && d + k == d' + k'
    requires (k == [] || !IsDigit(k[0])) && (k' == [] || !IsDigit(k'[0]))
    ensures d == d' && k == k'
  {
    DigitsOver(d, k);
    DigitsOver(d', k');
    CancelTail(d, d', k);
  }

  /** The first bytes of a string's text say which character comes first. */
  lemma UnitsHead(u: Units, k: bytes)
    requires WfUnits(u)
    ensures var s := PrintUnits(u, k);
            s != []
            && (u.Close? <==> s[0] == QUOTE)
            && (u.Plain? <==> s[0] != QUOTE && s[0] != BACKSLASH) && (u.Plain? ==> u.b == s[0])
            && (u.Escape? <==> s[0] == BACKSLASH && s[1] != LOWER_U) && (u.Escape? ==> u.c == s[1])
            && (u.Unicode? ==> |s| >= 6 && u.h0 == s[2] && u.h1 == s[3] && u.h2 == s[4] && u.h3 == s[5])
  {
  }

  lemma {:induction false} SameUnits(u: Units, u': Units, k: bytes, k': bytes)
    requires WfUnits(u) && WfUnits(u') && PrintUnits(u, k) == PrintUnits(u', k')
    ensures u == u' && k == k'
    decreases u
  {
    UnitsHead(u, k);
    UnitsHead(u', k');
    match u
    case Close =>
      CancelHead([QUOTE], k, k');
    case Plain(b, rest) =>
      CancelHead([b], PrintUnits(rest, k), PrintUnits(u'.rest, k'));
      SameUnits(rest, u'.rest, k, k');
    case Escape(c, rest) =>
      CancelHead([BACKSLASH, c], PrintUnits(rest, k), PrintUnits(u'.rest, k'));
      SameUnits(rest, u'.rest, k, k');
    case Unicode(h0, h1, h2, h3, rest) =>
      CancelHead([BACKSLASH, LOWER_U, h0, h1, h2, h3], PrintUnits(rest, k), PrintUnits(u'.rest, k'));
      SameUnits(rest, u'.rest, k, k');
  }

  lemma SameExp(e: Exp, e': Exp, k: bytes, k': bytes)
    requires WfExp(e) && WfExp(e') && EndsNumber(k) && EndsNumber(k') && PrintExp(e, k) == PrintExp(e', k')
    ensures e == e' && k == k'
  {
    SkipExpOver(e, k);
    SkipExpOver(e', k');
    if e.Exp? {
      assert e'.Exp? && e.e == e'.e;
      CancelHead([e.e], e.sign + (e.digits + k), e'.sign + (e'.digits + k'));
      assert e.digits[0] in e.digits && e'.digits[0] in e'.digits;
      assert (e.digits + k)[0] == e.digits[0] && (e'.digits + k')[0] == e'.digits[0];
      SameSign(e.sign, e'.sign, e.digits + k, e'.digits + k');
      SameDigits(e.digits, e'.digits, k, k');
    }
  }

  lemma SameSign(a: bytes, a': bytes, b: bytes, b': bytes)
    requires a + b == a' + b' && b != [] && b' != [] && IsDigit(b[0]) && IsDigit(b'[0])
    requires a == [] || a == [PLUS] || a == [MINUS]
    requires a' == [] || a' == [PLUS] || a' == [MINUS]
    ensures a == a' && b == b'
  {
    var s := a + b;
    assert s[0] == (if a == [] then b[0] else a[0]);
    assert s[0] == (if a' == [] then b'[0] else a'[0]);
    CancelHead(a, b, b');
  }

  lemma SameFrac(f: bytes, f': bytes, k: bytes, k': bytes)
    requires AllDigits(f) && AllDigits(f') && PrintFrac(f, k) == PrintFrac(f', k')
    requires (k == [] || (!IsDigit(k[0]) && k[0] != DOT)) && (k' == [] || (!IsDigit(k'[0]) && k'[0] != DOT))
    ensures f == f' && k == k'
  {
    SkipFracOver(f, k);
    SkipFracOver(f', k');
    if f != [] {
      assert f' != [];
      CancelHead([DOT], f + k, f' + k');
      CancelTail(f, f', k);
    }
  }

  lemma SameNumber(n: Number, n': Number, k: bytes, k': bytes)
    requires WfNumber(n) && WfNumber(n') && EndsNumber(k) && EndsNumber(k') && PrintNumber(n, k) == PrintNumber(n', k')
    ensures n == n' && k == k'
  {
    var e, e' := PrintExp(n.exp, k), PrintExp(n'.exp, k');
    var f, f' := PrintFrac(n.frac, e), PrintFrac(n'.frac, e');
    SkipExpOver(n.exp, k);
    SkipExpOver(n'.exp, k');
    SkipFracOver(n.frac, e);
    SkipFracOver(n'.frac, e');
    assert n.whole[0] in n.whole && n'.whole[0] in n'.whole;
    assert (n.whole + f)[0] == n.whole[0] && (n'.whole + f')[0] == n'.whole[0];
    SameSign(if n.neg then [MINUS] else [], if n'.neg then [MINUS] else [], n.whole + f, n'.whole + f');
    assert n.neg == n'.neg;
    SameDigits(n.whole, n'.whole, f, f');
    SameFrac(n.frac, n'.frac, e, e');
    SameExp(n.exp, n'.exp, k, k');
  }

  /** The first byte of a text says which production it is. */
  lemma SameProduction(v: Value, v': Value, k: bytes, k': bytes)
    requires Wf(v) && Wf(v') && Print(v, k) == Print(v', k')
    ensures v.Lit? <==> v'.Lit?
    ensures v.Lit? ==> v == v'
    ensures v.Num? <==> v'.Num?
    ensures v.Str? <==> v'.Str?
    ensures (v.EmptyArr? || v.Arr?) <==> (v'.EmptyArr? || v'.Arr?)
    ensures (v.EmptyObj? || v.Obj?) <==> (v'.EmptyObj? || v'.Obj?)
  {
    FirstByte(v, k);
    FirstByte(v', k');
  }

  lemma FirstByte(v: Value, k: bytes)
    requires Wf(v)
    ensures var s := Print(v, k);
            s != []
            && match v
               case Lit(w) => s[0] == WordText(w)[0]
               case Num(_) => s[0] == MINUS || IsDigit(s[0])
               case Str(_) => s[0] == QUOTE
               case EmptyArr(_) => s[0] == LBRACKET
               case Arr(_) => s[0] == LBRACKET
               case EmptyObj(_) => s[0] == LBRACE
               case Obj(_) => s[0] == LBRACE
  {
    if v.Num? && !v.n.neg {
      assert v.n.whole[0] in v.n.whole;
    }
  }

  lemma {:induction false} SameValue(v: Value, v': Value, k: bytes, k': bytes)
    requires Wf(v) && Wf(v') && Print(v, k) == Print(v', k')
    requires (v.Num? ==> EndsNumber(k)) && (v'.Num? ==> EndsNumber(k'))
    ensures v == v' && k == k'
    decreases v, 1
  {
    hide PrintNumber;
    SameProduction(v, v', k, k');
    SkipValueOver(v, k);
    SkipValueOver(v', k');
    var s, s' := Print(v, k), Print(v', k');
    match v
    case Lit(_) =>
    case Num(n) => SameNumber(n, v'.n, k, k');
    case Str(u) =>
      CancelHead([QUOTE], PrintUnits(u, k), PrintUnits(v'.units, k'));
      SameUnits(u, v'.units, k, k');
    case EmptyArr(ws) => SameArray(v, v', k);
    case Arr(items) => SameArray(v, v', k);
    case EmptyObj(ws) => SameObject(v, v', k);
    case Obj(members) => SameObject(v, v', k);
  }

  /** The byte after the opening bracket and its whitespace. */
  function Inner(v: Value, k: bytes): bytes {
    match v
    case EmptyArr(_) => [RBRACKET] + k
    case Arr(items) => Print(items.v, items.post + AfterItem(items, k))
    case EmptyObj(_) => [RBRACE] + k
    case Obj(m) => [QUOTE] + PrintUnits(m.key, AfterKey(m, AfterMember(m, k)))
    case _ => []
  }

  function InnerWs(v: Value): bytes {
    match v
    case EmptyArr(ws) => ws
    case Arr(items) => items.pre
    case EmptyObj(ws) => ws
    case Obj(m) => m.pre
    case _ => []
  }

  lemma InnerSplit(v: Value, k: bytes)
    requires Wf(v) && (v.EmptyArr? || v.Arr? || v.EmptyObj? || v.Obj?)
    ensures AllWs(InnerWs(v)) && SkipWs(Inner(v, k)) == Inner(v, k)
    ensures Print(v, k) == [Print(v, k)[0]] + (InnerWs(v) + Inner(v, k))
    ensures Inner(v, k) != []
    ensures v.Arr? ==> Inner(v, k)[0] != RBRACKET
    ensures v.EmptyArr? ==> Inner(v, k)[0] == RBRACKET
    ensures v.Obj? ==> Inner(v, k)[0] == QUOTE
    ensures v.EmptyObj? ==> Inner(v, k)[0] == RBRACE
  {
    if v.Arr? {
      PrintHead(v.items.v, v.items.post + AfterItem(v.items, k));
    }
  }

  lemma {:induction false} SameArray(v: Value, v': Value, k: bytes)
    requires Wf(v) && Wf(v') && Print(v, k) == Print(v', k)
    requires (v.EmptyArr? || v.Arr?) && (v'.EmptyArr? || v'.Arr?)
    ensures v == v'
    decreases v, 0
  {
    hide Inner, InnerWs;
    InnerSplit(v, k);
    InnerSplit(v', k);
    CancelHead([Print(v, k)[0]], InnerWs(v) + Inner(v, k), InnerWs(v') + Inner(v', k));
    SameWs(InnerWs(v), InnerWs(v'), Inner(v, k), Inner(v', k));
    if v.Arr? {
      assert v'.Arr?;
      SameItems(v.items, v'.items, k) by {
        CancelHead([LBRACKET], PrintItems(v.items, k), PrintItems(v'.items, k));
      }
    } else {
      EmptyByWs(v, v');
    }
  }

  lemma EmptyByWs(v: Value, v': Value)
    requires (v.EmptyArr? && v'.EmptyArr?) || (v.EmptyObj? && v'.EmptyObj?)
    requires InnerWs(v) == InnerWs(v')
    ensures v == v'
  {
  }

  lemma {:induction false} SameObject(v: Value, v': Value, k: bytes)
    requires Wf(v) && Wf(v') && Print(v, k) == Print(v', k)
    requires (v.EmptyObj? || v.Obj?) && (v'.EmptyObj? || v'.Obj?)
    ensures v == v'
    decreases v, 0
  {
    hide Inner, InnerWs;
    InnerSplit(v, k);
    InnerSplit(v', k);
    CancelHead([Print(v, k)[0]], InnerWs(v) + Inner(v, k), InnerWs(v') + Inner(v', k));
    SameWs(InnerWs(v), InnerWs(v'), Inner(v, k), Inner(v', k));
    if v.Obj? {
      assert v'.Obj?;
      SameMembers(v.members, v'.members, k) by {
        CancelHead([LBRACE], PrintMembers(v.members, k), PrintMembers(v'.members, k));
      }
    } else {
      EmptyByWs(v, v');
    }
  }

  lemma NotWs(s: bytes)
    requires s != [] && !IsWs(s[0])
    ensures SkipWs(s) == s
  {
  }

  lemma {:induction false} SameItems(items: Items, items': Items, k: bytes)
    requires WfItems(items) && WfItems(items') && PrintItems(items, k) == PrintItems(items', k)
    ensures items == items'
    decreases items
  {
    hide SkipWs;
    var t, t' := AfterItem(items, k), AfterItem(items', k);
    var x, x' := Print(items.v, items.post + t), Print(items'.v, items'.post + t');
    PrintHead(items.v, items.post + t);
    PrintHead(items'.v, items'.post + t');
    NotWs(x);
    NotWs(x');
    SameWs(items.pre, items'.pre, x, x');
    PostEndsNumber(items.post, t);
    PostEndsNumber(items'.post, t');
    SameValue(items.v, items'.v, items.post + t, items'.post + t');
    NotWs(t);
    NotWs(t');
    SameWs(items.post, items'.post, t, t');
    if items.Item? {
      assert items'.Item?;
      CancelHead([COMMA], PrintItems(items.rest, k), PrintItems(items'.rest, k));
      SameItems(items.rest, items'.rest, k);
    } else {
      assert items'.LastItem?;
    }
  }

  lemma {:induction false} SameAfterKey(m: Members, m': Members, t: bytes, t': bytes)
    requires WfMembers(m) && WfMembers(m') && AfterKey(m, t) == AfterKey(m', t')
    requires t != [] && (t[0] == COMMA || t[0] == RBRACE) && t' != [] && (t'[0] == COMMA || t'[0] == RBRACE)
    ensures m.mid == m'.mid && m.vpre == m'.vpre && m.v == m'.v && m.post == m'.post && t == t'
    decreases m, 0
  {
    hide SkipWs;
    var y, y' := Print(m.v, m.post + t), Print(m'.v, m'.post + t');
    NotWs([COLON] + (m.vpre + y));
    NotWs([COLON] + (m'.vpre + y'));
    SameWs(m.mid, m'.mid, [COLON] + (m.vpre + y), [COLON] + (m'.vpre + y'));
    CancelHead([COLON], m.vpre + y, m'.vpre + y');
    PrintHead(m.v, m.post + t);
    PrintHead(m'.v, m'.post + t');
    NotWs(y);
    NotWs(y');
    SameWs(m.vpre, m'.vpre, y, y');
    PostEndsNumber(m.post, t);
    PostEndsNumber(m'.post, t');
    SameValue(m.v, m'.v, m.post + t, m'.post + t');
    NotWs(t);
    NotWs(t');
    SameWs(m.post, m'.post, t, t');
  }

  lemma {:induction false} SameMembers(m: Members, m': Members, k: bytes)
    requires WfMembers(m) && WfMembers(m') && PrintMembers(m, k) == PrintMembers(m', k)
    ensures m == m'
    decreases m, 1
  {
    hide SkipWs;
    var t, t' := AfterMember(m, k), AfterMember(m', k);
    var x, x' := PrintUnits(m.key, AfterKey(m, t)), PrintUnits(m'.key, AfterKey(m', t'));
    NotWs([QUOTE] + x);
    NotWs([QUOTE] + x');
    SameWs(m.pre, m'.pre, [QUOTE] + x, [QUOTE] + x');
    CancelHead([QUOTE], x, x');
    SameUnits(m.key, m'.key, AfterKey(m, t), AfterKey(m', t'));
    SameAfterKey(m, m', t, t');
    if m.Member? {
      assert m'.Member?;
      CancelHead([COMMA], PrintMembers(m.rest, k), PrintMembers(m'.rest, k));
      SameMembers(m.rest, m'.rest, k);
    } else {
      assert m'.LastMember?;
    }
  }

  /** A document has exactly one reading. */
  lemma DocumentUnique(s: bytes, pre: bytes, v: Value, post: bytes, pre': bytes, v': Value, post': bytes)
    requires DocumentOf(s, pre, v, post) && DocumentOf(s, pre', v', post')
    ensures pre == pre' && v == v' && post == post'
  {
    DocumentIsValid(s, pre, v, post);
    DocumentIsValid(s, pre', v', post');
    assert EndsNumber(post) by {
      if post != [] { assert post[0] in post; }
    }
    SameValue(v, v', post, post');
    CancelTail(pre, pre', Print(v, post));
  }
}
