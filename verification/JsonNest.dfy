/**
  Finding the end of a value by counting brackets and watching string quotes, the
  only structure the streaming transform tracks, and why that is enough on
  well-formed text.
*/
module JsonNest {
  import opened Bytes
  import opened JsonText

  datatype Nest = Nest(depth: nat, inStr: bool, esc: bool)

  const OPENED := Nest(1, false, false)

  predicate Opens(b: byte) {
    b == LBRACE || b == LBRACKET
  }

  predicate Closes(b: byte) {
    b == RBRACE || b == RBRACKET
  }

  /** One byte inside at least one bracket. */
  function NestStep(n: Nest, b: byte): Nest {
    if n.inStr then
      if n.esc then n.(esc := false)
      else if b == BACKSLASH then n.(esc := true)
      else if b == QUOTE then n.(inStr := false)
      else n
    else if b == QUOTE then n.(inStr := true)
    else if Opens(b) then n.(depth := n.depth + 1)
    else if Closes(b) && n.depth > 0 then n.(depth := n.depth - 1)
    else n
  }

  /** What is left after the byte that closes the outermost bracket. */
  function NestEnd(n: Nest, s: bytes): (r: Option<bytes>)
    decreases |s|
    ensures r.Some? ==> |r.value| < |s|
  {
    if s == [] then None
    else
      var m := NestStep(n, s[0]);
      if m.depth == 0 then Some(s[1..]) else NestEnd(m, s[1..])
  }

  /** The state after `s`, when `s` closes nothing it did not open. */
  function NestRun(n: Nest, s: bytes): Option<Nest>
    decreases |s|
  {
    if s == [] then Some(n)
    else
      var m := NestStep(n, s[0]);
      if m.depth == 0 then None else NestRun(m, s[1..])
  }

  /** What is left after a string's closing quote. */
  function StrEnd(esc: bool, s: bytes): (r: Option<bytes>)
    decreases |s|
    ensures r.Some? ==> |r.value| < |s|
  {
    if s == [] then None
    else if esc then StrEnd(false, s[1..])
    else if s[0] == BACKSLASH then StrEnd(true, s[1..])
    else if s[0] == QUOTE then Some(s[1..])
    else StrEnd(false, s[1..])
  }

  /** The escape state after `s`, when `s` holds no closing quote. */
  function StrRun(esc: bool, s: bytes): Option<bool>
    decreases |s|
  {
    if s == [] then Some(esc)
    else if esc then StrRun(false, s[1..])
    else if s[0] == BACKSLASH then StrRun(true, s[1..])
    else if s[0] == QUOTE then None
    else StrRun(false, s[1..])
  }

  // ---------- over well-formed text ----------

  lemma {:induction false} StrEndOver(u: Units, k: bytes)
    requires WfUnits(u)
    ensures StrEnd(false, PrintUnits(u, k)) == Some(k)
  {
    var s := PrintUnits(u, k);
    match u
    case Close => assert s[1..] == k;
    case Plain(b, rest) =>
      assert s[1..] == PrintUnits(rest, k);
      StrEndOver(rest, k);
    case Escape(c, rest) =>
      assert s[1..][1..] == PrintUnits(rest, k);
      StrEndOver(rest, k);
    case Unicode(h0, h1, h2, h3, rest) =>
      assert s[1..][1..] == [h0, h1, h2, h3] + PrintUnits(rest, k);
      StrPlainOver([h0, h1, h2, h3], PrintUnits(rest, k));
      StrEndOver(rest, k);
  }

  lemma {:induction false} StrPlainOver(p: bytes, k: bytes)
    requires forall b | b in p :: b != QUOTE && b != BACKSLASH
    ensures StrEnd(false, p + k) == StrEnd(false, k)
  {
    if p == [] {
      assert p + k == k;
    } else {
      assert p[0] in p && forall b | b in p[1..] :: b in p;
      assert (p + k)[1..] == p[1..] + k;
      StrPlainOver(p[1..], k);
    }
  }

  /** A string inside brackets is crossed without counting anything in it. */
  lemma {:induction false} NestStrOver(d: nat, esc: bool, s: bytes)
    requires d > 0
    ensures NestEnd(Nest(d, true, esc), s) ==
            (match StrEnd(esc, s) case None => None case Some(k) => NestEnd(Nest(d, false, false), k))
    decreases |s|
  {
    if s != [] {
      if esc {
        NestStrOver(d, false, s[1..]);
      } else if s[0] == BACKSLASH {
        NestStrOver(d, true, s[1..]);
      } else if s[0] != QUOTE {
        NestStrOver(d, false, s[1..]);
      }
    }
  }

  predicate Inert(b: byte) {
    b != QUOTE && !Opens(b) && !Closes(b)
  }

  lemma {:induction false} NestInert(d: nat, p: bytes, k: bytes)
    requires d > 0 && AllInert(p)
    ensures NestEnd(Nest(d, false, false), p + k) == NestEnd(Nest(d, false, false), k)
  {
    if p == [] {
      assert p + k == k;
    } else {
      assert p[0] in p;
      assert (p + k)[1..] == p[1..] + k;
      NestInert(d, p[1..], k);
    }
  }

  lemma NestByte(n: Nest, b: byte, k: bytes)
    ensures NestEnd(n, [b] + k) == if NestStep(n, b).depth == 0 then Some(k) else NestEnd(NestStep(n, b), k)
  {
    assert ([b] + k)[1..] == k;
  }

  lemma NestString(d: nat, u: Units, k: bytes)
    requires d > 0 && WfUnits(u)
    ensures NestEnd(Nest(d, false, false), [QUOTE] + PrintUnits(u, k)) == NestEnd(Nest(d, false, false), k)
  {
    NestByte(Nest(d, false, false), QUOTE, PrintUnits(u, k));
    NestStrOver(d, false, PrintUnits(u, k));
    StrEndOver(u, k);
  }

  predicate AllInert(s: bytes) {
    forall b | b in s :: Inert(b)
  }

  lemma BothInert(s: bytes, t: bytes)
    requires AllInert(s) && AllInert(t)
    ensures AllInert(s + t)
  {
  }

  lemma ExpInert(exp: Exp)
    requires WfExp(exp)
    ensures AllInert(PrintExp(exp, []))
  {
    if exp.Exp? {
      BothInert(exp.digits, []);
      BothInert(exp.sign, exp.digits + []);
      BothInert([exp.e], exp.sign + (exp.digits + []));
    }
  }

  lemma NumberInert(n: Number) returns (p: bytes)
    requires WfNumber(n)
    ensures AllInert(p)
    ensures PrintNumber(n, []) == p
  {
    hide PrintExp, WfExp, AllInert;
    assert AllInert([]) && AllInert([DOT]) && AllInert([MINUS]) by { EachInert(); }
    DigitsInert(n.whole);
    DigitsInert(n.frac);
    ExpInert(n.exp);
    var exp := PrintExp(n.exp, []);
    BothInert(n.frac, exp);
    BothInert([DOT], n.frac + exp);
    var frac := PrintFrac(n.frac, exp);
    BothInert(n.whole, frac);
    BothInert(if n.neg then [MINUS] else [], n.whole + frac);
    p := PrintNumber(n, []);
  }

  lemma EachInert()
    ensures AllInert([]) && AllInert([DOT]) && AllInert([MINUS])
  {
  }

  lemma DigitsInert(s: bytes)
    requires AllDigits(s)
    ensures AllInert(s)
  {
  }

  /** After `s`, the bracket is closed if `d` was 1, else one level is gone. */
  function AfterClose(d: nat, k: bytes): Option<bytes>
    requires d > 0
  {
    if d == 1 then Some(k) else NestEnd(Nest(d - 1, false, false), k)
  }

  lemma {:induction false} NestValue(d: nat, v: Value, k: bytes)
    requires d > 0 && Wf(v)
    ensures NestEnd(Nest(d, false, false), Print(v, k)) == NestEnd(Nest(d, false, false), k)
    decreases v
  {
    hide NestEnd;
    var n := Nest(d, false, false);
    match v
    case Lit(w) => NestInert(d, WordText(w), k);
    case Num(num) =>
      var p := NumberInert(num);
      PrintNumberAppends(num, k);
      NestInert(d, p, k);
    case Str(u) => NestString(d, u, k);
    case EmptyArr(ws) =>
      NestByte(n, LBRACKET, ws + ([RBRACKET] + k));
      NestInert(d + 1, ws, [RBRACKET] + k);
      NestByte(Nest(d + 1, false, false), RBRACKET, k);
    case Arr(items) =>
      NestByte(n, LBRACKET, PrintItems(items, k));
      NestItems(d + 1, items, k);
    case EmptyObj(ws) =>
      NestByte(n, LBRACE, ws + ([RBRACE] + k));
      NestInert(d + 1, ws, [RBRACE] + k);
      NestByte(Nest(d + 1, false, false), RBRACE, k);
    case Obj(members) =>
      NestByte(n, LBRACE, PrintMembers(members, k));
      NestMembers(d + 1, members, k);
  }

  /** Inside an array, the bracket that closes it is the one after its elements. */
  lemma {:induction false} NestItems(d: nat, items: Items, k: bytes)
    requires d > 0 && WfItems(items)
    ensures NestEnd(Nest(d, false, false), PrintItems(items, k)) == AfterClose(d, k)
    decreases items
  {
    hide NestEnd;
    var n := Nest(d, false, false);
    var t := AfterItem(items, k);
    NestInert(d, items.pre, Print(items.v, items.post + t));
    NestValue(d, items.v, items.post + t);
    NestInert(d, items.post, t);
    if items.Item? {
      NestByte(n, COMMA, PrintItems(items.rest, k));
      NestItems(d, items.rest, k);
    } else {
      NestByte(n, RBRACKET, k);
    }
  }

  lemma {:induction false} NestMember(d: nat, m: Members, t: bytes)
    requires d > 0 && WfMembers(m)
    ensures NestEnd(Nest(d, false, false), AfterKey(m, t)) == NestEnd(Nest(d, false, false), t)
    decreases m, 0
  {
    hide NestEnd;
    var value := m.vpre + Print(m.v, m.post + t);
    NestInert(d, m.mid, [COLON] + value);
    NestByte(Nest(d, false, false), COLON, value);
    NestInert(d, m.vpre, Print(m.v, m.post + t));
    NestValue(d, m.v, m.post + t);
    NestInert(d, m.post, t);
  }

  lemma {:induction false} NestMembers(d: nat, m: Members, k: bytes)
    requires d > 0 && WfMembers(m)
    ensures NestEnd(Nest(d, false, false), PrintMembers(m, k)) == AfterClose(d, k)
    decreases m, 1
  {
    hide NestEnd;
    var n := Nest(d, false, false);
    var t := AfterMember(m, k);
    NestInert(d, m.pre, [QUOTE] + PrintUnits(m.key, AfterKey(m, t)));
    NestString(d, m.key, AfterKey(m, t));
    NestMember(d, m, t);
    if m.Member? {
      NestByte(n, COMMA, PrintMembers(m.rest, k));
      NestMembers(d, m.rest, k);
    } else {
      NestByte(n, RBRACE, k);
    }
  }
}
