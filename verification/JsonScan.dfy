/**
  What each production of the recursive-descent scanner does to the bytes still
  ahead of its cursor, and the two facts that pin it to the grammar: it consumes
  exactly the text of any well-formed value, and whatever it consumes is the text
  of one.
*/
module JsonScan {
  import opened Bytes
  import opened JsonText

  function SkipWs(s: bytes): (r: bytes)
    ensures |r| <= |s|
    ensures r == [] || !IsWs(r[0])
  {
    if s != [] && IsWs(s[0]) then SkipWs(s[1..]) else s
  }

  function Expect(s: bytes, b: byte): (r: Option<bytes>)
    ensures r.Some? ==> |r.value| < |s|
  {
    if s != [] && s[0] == b then Some(s[1..]) else None
  }

  function SkipHex4(s: bytes): (r: Option<bytes>)
    ensures r.Some? ==> |r.value| < |s|
  {
    if |s| >= 4 && HexVal(s[0]).Some? && HexVal(s[1]).Some? && HexVal(s[2]).Some? && HexVal(s[3]).Some?
    then Some(s[4..]) else None
  }

  /** One escape, after its backslash: `\u` carries four hexadecimal digits, any
      other byte stands alone. */
  function SkipEscape(s: bytes): (r: Option<bytes>)
    ensures r.Some? ==> |r.value| < |s|
  {
    if s == [] then None
    else if s[0] == LOWER_U then SkipHex4(s[1..])
    else Some(s[1..])
  }

  /** The rest of a string, after its opening quote. */
  function SkipUnits(s: bytes): (r: Option<bytes>)
    ensures r.Some? ==> |r.value| < |s|
  {
    if s == [] then None
    else if s[0] == QUOTE then Some(s[1..])
    else if s[0] == BACKSLASH then
      var t :- SkipEscape(s[1..]);
      SkipUnits(t)
    else if s[0] < 0x20 then None
    else SkipUnits(s[1..])
  }

  function SkipString(s: bytes): (r: Option<bytes>)
    ensures r.Some? ==> |r.value| < |s|
  {
    var t :- Expect(s, QUOTE);
    SkipUnits(t)
  }

  function Digits(s: bytes): (r: bytes)
    ensures |r| <= |s|
  {
    if s != [] && IsDigit(s[0]) then Digits(s[1..]) else s
  }

  function OneOrMoreDigits(s: bytes): (r: Option<bytes>)
    ensures r.Some? ==> |r.value| < |s|
  {
    if s != [] && IsDigit(s[0]) then Some(Digits(s)) else None
  }

  function SkipWhole(s: bytes): (r: Option<bytes>)
    ensures r.Some? ==> |r.value| < |s|
  {
    if s != [] && s[0] == ZERO then Some(s[1..]) else OneOrMoreDigits(s)
  }

  function SkipFrac(s: bytes): (r: Option<bytes>)
    ensures r.Some? ==> |r.value| <= |s|
  {
    if s != [] && s[0] == DOT then OneOrMoreDigits(s[1..]) else Some(s)
  }

  function SkipSign(s: bytes): (r: bytes)
    ensures |r| <= |s|
  {
    if s != [] && (s[0] == PLUS || s[0] == MINUS) then s[1..] else s
  }

  function SkipExp(s: bytes): (r: Option<bytes>)
    ensures r.Some? ==> |r.value| <= |s|
  {
    if s != [] && (s[0] == LOWER_E || s[0] == UPPER_E) then OneOrMoreDigits(SkipSign(s[1..])) else Some(s)
  }

  function SkipNumber(s: bytes): (r: Option<bytes>)
    ensures r.Some? ==> |r.value| < |s|
  {
    var t := if s != [] && s[0] == MINUS then s[1..] else s;
    var t :- SkipWhole(t);
    var t :- SkipFrac(t);
    SkipExp(t)
  }

  function SkipWord(s: bytes, w: Word): (r: Option<bytes>)
    ensures r.Some? ==> |r.value| < |s|
  {
    if WordText(w) <= s then Some(s[|WordText(w)|..]) else None
  }

  function SkipValue(s: bytes): (r: Option<bytes>)
    decreases |s|, 1
    ensures r.Some? ==> |r.value| < |s|
  {
    var s := SkipWs(s);
    if s == [] then None
    else if s[0] == LBRACE then SkipObject(s[1..])
    else if s[0] == LBRACKET then SkipArray(s[1..])
    else if s[0] == QUOTE then SkipString(s)
    else if s[0] == 0x74 then SkipWord(s, True)
    else if s[0] == 0x66 then SkipWord(s, False)
    else if s[0] == 0x6E then SkipWord(s, Null)
    else if s[0] == MINUS || IsDigit(s[0]) then SkipNumber(s)
    else None
  }

  /** An object, after its opening brace. */
  function SkipObject(s: bytes): (r: Option<bytes>)
    decreases |s|, 4
    ensures r.Some? ==> |r.value| < |s|
  {
    var t := SkipWs(s);
    if t != [] && t[0] == RBRACE then Some(t[1..]) else SkipMembers(t)
  }

  /** One member, to its delimiter. */
  function SkipMember(s: bytes): (r: Option<bytes>)
    decreases |s|, 2
    ensures r.Some? ==> |r.value| < |s|
  {
    var t :- SkipString(SkipWs(s));
    var t :- Expect(SkipWs(t), COLON);
    var t :- SkipValue(t);
    Some(SkipWs(t))
  }

  function SkipMembers(s: bytes): (r: Option<bytes>)
    decreases |s|, 3
    ensures r.Some? ==> |r.value| < |s|
  {
    var t :- SkipMember(s);
    if t == [] then None
    else if t[0] == COMMA then SkipMembers(t[1..])
    else if t[0] == RBRACE then Some(t[1..])
    else None
  }

  /** An array, after its opening bracket. */
  function SkipArray(s: bytes): (r: Option<bytes>)
    decreases |s|, 3
    ensures r.Some? ==> |r.value| < |s|
  {
    var t := SkipWs(s);
    if t != [] && t[0] == RBRACKET then Some(t[1..]) else SkipItems(t)
  }

  function SkipItems(s: bytes): (r: Option<bytes>)
    decreases |s|, 2
    ensures r.Some? ==> |r.value| < |s|
  {
    var t :- SkipValue(s);
    var t := SkipWs(t);
    if t == [] then None
    else if t[0] == COMMA then SkipItems(t[1..])
    else if t[0] == RBRACKET then Some(t[1..])
    else None
  }

  /** A whole document: one value, then nothing but whitespace. */
  predicate ValidDocument(s: bytes) {
    SkipValue(s).Some? && SkipWs(SkipValue(s).value) == []
  }

  // ---------- the scanner consumes exactly one printed value ----------

  lemma {:induction false} SkipWsOver(ws: bytes, k: bytes)
    requires AllWs(ws)
    ensures SkipWs(ws + k) == SkipWs(k)
  {
    if ws == [] {
      assert ws + k == k;
    } else {
      assert (ws + k)[1..] == ws[1..] + k;
      assert ws[0] in ws;
      SkipWsOver(ws[1..], k);
    }
  }

  lemma {:induction false} DigitsOver(d: bytes, k: bytes)
    requires AllDigits(d)
    requires k == [] || !IsDigit(k[0])
    ensures Digits(d + k) == k
  {
    if d == [] {
      assert d + k == k;
    } else {
      assert (d + k)[1..] == d[1..] + k;
      assert d[0] in d;
      DigitsOver(d[1..], k);
    }
  }

  lemma {:induction false} SkipUnitsOver(u: Units, k: bytes)
    requires WfUnits(u)
    ensures SkipUnits(PrintUnits(u, k)) == Some(k)
  {
    var s := PrintUnits(u, k);
    match u
    case Close => assert s[1..] == k;
    case Plain(b, rest) =>
      assert s[1..] == PrintUnits(rest, k);
      SkipUnitsOver(rest, k);
    case Escape(c, rest) =>
      assert s[1..][1..] == PrintUnits(rest, k);
      SkipUnitsOver(rest, k);
    case Unicode(h0, h1, h2, h3, rest) =>
      assert s[1..][1..][4..] == PrintUnits(rest, k);
      SkipUnitsOver(rest, k);
  }

  lemma SkipExpOver(e: Exp, k: bytes)
    requires WfExp(e) && EndsNumber(k)
    ensures SkipExp(PrintExp(e, k)) == Some(k)
    ensures var t := PrintExp(e, k); t == [] || (!IsDigit(t[0]) && t[0] != DOT)
  {
    if e.Exp? {
      var t := PrintExp(e, k)[1..];
      assert t == e.sign + (e.digits + k);
      assert e.digits[0] in e.digits;
      assert (e.digits + k)[0] == e.digits[0];
      assert SkipSign(t) == e.digits + k;
      DigitsOver(e.digits, k);
    }
  }

  lemma SkipFracOver(frac: bytes, k: bytes)
    requires AllDigits(frac) && (k == [] || (!IsDigit(k[0]) && k[0] != DOT))
    ensures SkipFrac(PrintFrac(frac, k)) == Some(k)
    ensures var t := PrintFrac(frac, k); t == [] || !IsDigit(t[0])
  {
    if frac != [] {
      assert PrintFrac(frac, k)[1..] == frac + k;
      assert frac[0] in frac;
      DigitsOver(frac, k);
    }
  }

  lemma SkipNumberOver(n: Number, k: bytes)
    requires WfNumber(n) && EndsNumber(k)
    ensures var s := PrintNumber(n, k); SkipNumber(s) == Some(k) && s != [] && (s[0] == MINUS || IsDigit(s[0]))
  {
    var e := PrintExp(n.exp, k);
    var f := PrintFrac(n.frac, e);
    SkipExpOver(n.exp, k);
    SkipFracOver(n.frac, e);
    assert n.whole[0] in n.whole;
    var t := n.whole + f;
    assert SkipWhole(t) == Some(f) by {
      if n.whole[0] == ZERO {
        assert t[1..] == f;
      } else {
        DigitsOver(n.whole, f);
      }
    }
    assert n.neg ==> ([MINUS] + t)[1..] == t;
    assert !n.neg ==> [] + t == t;
  }

  /** The first byte of a value: never whitespace, never a closing bracket. */
  lemma PrintHead(v: Value, k: bytes)
    requires Wf(v)
    ensures var s := Print(v, k); s != [] && !IsWs(s[0]) && s[0] != RBRACKET && s[0] != RBRACE && s[0] != COMMA
  {
    if v.Num? && !v.n.neg {
      assert v.n.whole[0] in v.n.whole;
    }
  }

  lemma EmptyOver(ws: bytes, k: bytes)
    requires AllWs(ws)
    ensures SkipArray(ws + ([RBRACKET] + k)) == Some(k)
    ensures SkipObject(ws + ([RBRACE] + k)) == Some(k)
  {
    SkipWsOver(ws, [RBRACKET] + k);
    SkipWsOver(ws, [RBRACE] + k);
    assert ([RBRACKET] + k)[1..] == k && ([RBRACE] + k)[1..] == k;
  }

  /** A value is consumed whole, whatever follows it, nesting and all. */
  lemma {:induction false} SkipValueOver(v: Value, k: bytes)
    requires Wf(v)
    requires v.Num? ==> EndsNumber(k)
    ensures SkipValue(Print(v, k)) == Some(k)
    decreases v, 1
  {
    PrintHead(v, k);
    hide PrintNumber, PrintUnits, PrintItems, PrintMembers, SkipUnits, SkipItems, SkipMembers, SkipNumber, SkipArray;
    hide SkipObject;
    var s := Print(v, k);
    assert SkipWs(s) == s;
    match v
    case Lit(w) => assert s[|WordText(w)|..] == k;
    case Num(n) => SkipNumberOver(n, k);
    case Str(u) =>
      assert s[1..] == PrintUnits(u, k);
      SkipUnitsOver(u, k);
    case EmptyArr(ws) =>
      assert s[1..] == ws + ([RBRACKET] + k);
      EmptyOver(ws, k);
    case Arr(items) =>
      assert s[1..] == PrintItems(items, k);
      SkipItemsOver(items, k);
    case EmptyObj(ws) =>
      assert s[1..] == ws + ([RBRACE] + k);
      EmptyOver(ws, k);
    case Obj(members) =>
      assert s[1..] == PrintMembers(members, k);
      SkipMembersOver(members, k);
  }

  /** A closing or separating byte after optional whitespace ends a number. */
  lemma PostEndsNumber(post: bytes, t: bytes)
    requires AllWs(post) && t != [] && (t[0] == COMMA || t[0] == RBRACE || t[0] == RBRACKET)
    ensures EndsNumber(post + t)
  {
    if post != [] {
      assert post[0] in post;
    }
  }

  /** Leading whitespace makes no difference to where a value, an item list or a
      member list ends. */
  lemma SkipPastWs(ws: bytes, s: bytes)
    requires AllWs(ws)
    ensures SkipValue(ws + s) == SkipValue(s)
    ensures SkipItems(ws + s) == SkipItems(s)
    ensures SkipMembers(ws + s) == SkipMembers(s)
  {
    SkipWsOver(ws, s);
  }

  lemma {:induction false} SkipItemsOver(items: Items, k: bytes)
    requires WfItems(items)
    ensures SkipItems(PrintItems(items, k)) == Some(k)
    ensures SkipArray(PrintItems(items, k)) == Some(k)
    decreases items
  {
    var t := AfterItem(items, k);
    var body := Print(items.v, items.post + t);
    PostEndsNumber(items.post, t);
    SkipValueOver(items.v, items.post + t);
    SkipWsOver(items.post, t);
    if items.Item? {
      assert t[1..] == PrintItems(items.rest, k);
      SkipItemsOver(items.rest, k);
    } else {
      assert t[1..] == k;
    }
    SkipPastWs(items.pre, body);
    SkipWsOver(items.pre, body);
    PrintHead(items.v, items.post + t);
  }

  /** One member is consumed up to the delimiter `t` after it. */
  lemma {:induction false} SkipMemberOver(m: Members, t: bytes)
    requires WfMembers(m) && t != [] && (t[0] == COMMA || t[0] == RBRACE)
    ensures SkipString([QUOTE] + PrintUnits(m.key, AfterKey(m, t))) == Some(AfterKey(m, t))
    ensures Expect(SkipWs(AfterKey(m, t)), COLON) == Some(m.vpre + Print(m.v, m.post + t))
    ensures SkipValue(m.vpre + Print(m.v, m.post + t)) == Some(m.post + t)
    ensures SkipWs(m.post + t) == t
    decreases m, 0
  {
    hide Print, PrintUnits, SkipUnits, Wf, WfUnits, SkipValue, SkipItems, SkipMembers, EndsNumber, SkipWs;
    var value := m.vpre + Print(m.v, m.post + t);
    assert ([QUOTE] + PrintUnits(m.key, AfterKey(m, t)))[1..] == PrintUnits(m.key, AfterKey(m, t));
    SkipUnitsOver(m.key, AfterKey(m, t));
    SkipWsOver(m.mid, [COLON] + value);
    assert ([COLON] + value)[1..] == value;
    SkipPastWs(m.vpre, Print(m.v, m.post + t));
    PostEndsNumber(m.post, t);
    SkipValueOver(m.v, m.post + t);
    SkipWsOver(m.post, t);
    SkipWsStops([COLON] + value);
    SkipWsStops(t);
  }

  lemma SkipWsStops(s: bytes)
    requires s != [] && !IsWs(s[0])
    ensures SkipWs(s) == s
  {
  }

  lemma {:induction false} SkipMembersOver(m: Members, k: bytes)
    requires WfMembers(m)
    ensures SkipMembers(PrintMembers(m, k)) == Some(k)
    ensures SkipObject(PrintMembers(m, k)) == Some(k)
    decreases m, 1
  {
    hide Print, PrintUnits, SkipUnits, SkipValue, Wf, WfUnits;
    var t := AfterMember(m, k);
    var body := [QUOTE] + PrintUnits(m.key, AfterKey(m, t));
    SkipMemberOver(m, t);
    if m.Member? {
      assert t[1..] == PrintMembers(m.rest, k);
      SkipMembersOver(m.rest, k);
    } else {
      assert t[1..] == k;
    }
    assert SkipMembers(body) == Some(k);
    SkipPastWs(m.pre, body);
    SkipWsOver(m.pre, body);
  }
}
