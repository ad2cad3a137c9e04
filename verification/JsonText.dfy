/**
  The JSON texts of RFC 8259 as concrete syntax trees. A tree fixes every choice
  the grammar leaves open (whitespace, escapes, number spelling), so a tree has
  exactly one text; `Print` writes that text in front of a continuation `k`.
  Nothing here is taken from the scanner: it is the reference the scanner, the
  splice, the query wrapper and the response transform are measured against.
*/
module JsonText {
  import opened Bytes

  /** The characters of a string up to and including its closing quote. */
  datatype Units =
    | Close
    | Plain(b: byte, rest: Units)
    | Escape(c: byte, rest: Units)
    | Unicode(h0: byte, h1: byte, h2: byte, h3: byte, rest: Units)

  datatype Exp = NoExp | Exp(e: byte, sign: bytes, digits: bytes)

  /** A number: RFC 8259, section 6. An empty `frac` means there is none. */
  datatype Number = Number(neg: bool, whole: bytes, frac: bytes, exp: Exp)

  datatype Word = True | False | Null

  datatype Value =
    | Lit(w: Word)
    | Num(n: Number)
    | Str(units: Units)
    | EmptyArr(ws: bytes)
    | Arr(items: Items)
    | EmptyObj(ws: bytes)
    | Obj(members: Members)

  datatype Items =
    | LastItem(pre: bytes, v: Value, post: bytes)
    | Item(pre: bytes, v: Value, post: bytes, rest: Items)

  datatype Members =
    | LastMember(pre: bytes, key: Units, mid: bytes, vpre: bytes, v: Value, post: bytes)
    | Member(pre: bytes, key: Units, mid: bytes, vpre: bytes, v: Value, post: bytes, rest: Members)

  // ---------- well-formedness ----------

  /** A byte that ends an ordinary run inside a string. */
  predicate IsStringBoundary(c: byte) {
    c == QUOTE || c == BACKSLASH || c < 0x20
  }

  /** String characters as the skipping scanner accepts them: any byte may follow
      a backslash. RFC 8259 section 7 allows only eight; see `JsonRaw.LegalUnits`. */
  predicate WfUnits(u: Units) {
    match u
    case Close => true
    case Plain(b, rest) => !IsStringBoundary(b) && WfUnits(rest)
    case Escape(c, rest) => c != LOWER_U && WfUnits(rest)
    case Unicode(h0, h1, h2, h3, rest) =>
      HexVal(h0).Some? && HexVal(h1).Some? && HexVal(h2).Some? && HexVal(h3).Some? && WfUnits(rest)
  }

  predicate WfExp(e: Exp) {
    e.Exp? ==> (e.e == LOWER_E || e.e == UPPER_E)
               && (e.sign == [] || e.sign == [PLUS] || e.sign == [MINUS])
               && e.digits != [] && AllDigits(e.digits)
  }

  predicate WfNumber(n: Number) {
    && n.whole != [] && AllDigits(n.whole) && (n.whole[0] == ZERO ==> |n.whole| == 1)
    && AllDigits(n.frac)
    && WfExp(n.exp)
  }

  predicate Wf(v: Value) {
    match v
    case Lit(_) => true
    case Num(n) => WfNumber(n)
    case Str(u) => WfUnits(u)
    case EmptyArr(ws) => AllWs(ws)
    case Arr(items) => WfItems(items)
    case EmptyObj(ws) => AllWs(ws)
    case Obj(members) => WfMembers(members)
  }

  predicate WfItems(items: Items) {
    AllWs(items.pre) && Wf(items.v) && AllWs(items.post) && (items.Item? ==> WfItems(items.rest))
  }

  predicate WfMembers(m: Members) {
    && AllWs(m.pre) && WfUnits(m.key) && AllWs(m.mid)
    && AllWs(m.vpre) && Wf(m.v) && AllWs(m.post)
    && (m.Member? ==> WfMembers(m.rest))
  }

  // ---------- the text of a tree, in front of a continuation ----------

  function WordText(w: Word): bytes {
    match w
    case True => [0x74, 0x72, 0x75, 0x65]
    case False => [0x66, 0x61, 0x6C, 0x73, 0x65]
    case Null => [0x6E, 0x75, 0x6C, 0x6C]
  }

  function PrintUnits(u: Units, k: bytes): bytes {
    match u
    case Close => [QUOTE] + k
    case Plain(b, rest) => [b] + PrintUnits(rest, k)
    case Escape(c, rest) => [BACKSLASH, c] + PrintUnits(rest, k)
    case Unicode(h0, h1, h2, h3, rest) => [BACKSLASH, LOWER_U, h0, h1, h2, h3] + PrintUnits(rest, k)
  }

  function PrintExp(e: Exp, k: bytes): bytes {
    match e
    case NoExp => k
    case Exp(c, sign, digits) => [c] + (sign + (digits + k))
  }

  function PrintFrac(frac: bytes, k: bytes): bytes {
    if frac == [] then k else [DOT] + (frac + k)
  }

  function PrintNumber(n: Number, k: bytes): bytes {
    (if n.neg then [MINUS] else []) + (n.whole + PrintFrac(n.frac, PrintExp(n.exp, k)))
  }

  function Print(v: Value, k: bytes): bytes
    decreases v, 2
  {
    match v
    case Lit(w) => WordText(w) + k
    case Num(n) => PrintNumber(n, k)
    case Str(u) => [QUOTE] + PrintUnits(u, k)
    case EmptyArr(ws) => [LBRACKET] + (ws + ([RBRACKET] + k))
    case Arr(items) => [LBRACKET] + PrintItems(items, k)
    case EmptyObj(ws) => [LBRACE] + (ws + ([RBRACE] + k))
    case Obj(members) => [LBRACE] + PrintMembers(members, k)
  }

  /** What follows one array element: the bracket, or a comma and the others. */
  function AfterItem(items: Items, k: bytes): bytes
    decreases items, 0
  {
    match items
    case LastItem(_, _, _) => [RBRACKET] + k
    case Item(_, _, _, rest) => [COMMA] + PrintItems(rest, k)
  }

  function PrintItems(items: Items, k: bytes): bytes
    decreases items, 1
  {
    items.pre + Print(items.v, items.post + AfterItem(items, k))
  }

  /** What follows one object member: the brace, or a comma and the others. */
  function AfterMember(m: Members, k: bytes): bytes
    decreases m, 0
  {
    match m
    case LastMember(_, _, _, _, _, _) => [RBRACE] + k
    case Member(_, _, _, _, _, _, rest) => [COMMA] + PrintMembers(rest, k)
  }

  /** What follows a member's key: the colon, its value and `t`. */
  function AfterKey(m: Members, t: bytes): bytes
    decreases m, 0
  {
    m.mid + ([COLON] + (m.vpre + Print(m.v, m.post + t)))
  }

  function PrintMembers(m: Members, k: bytes): bytes
    decreases m, 1
  {
    m.pre + ([QUOTE] + PrintUnits(m.key, AfterKey(m, AfterMember(m, k))))
  }

  /** The elements of an array, in order. */
  function ItemValues(items: Items): seq<Value> {
    [items.v] + if items.Item? then ItemValues(items.rest) else []
  }

  /** The whole text of a tree. */
  function Text(v: Value): bytes {
    Print(v, [])
  }

  /** `k` cannot lengthen a number written in front of it. Every delimiter and
      every whitespace byte qualifies. */
  predicate EndsNumber(k: bytes) {
    k == [] || !(IsDigit(k[0]) || k[0] == DOT || k[0] == LOWER_E || k[0] == UPPER_E)
  }

  // ---------- printing is appending ----------

  lemma {:induction false} PrintUnitsAppends(u: Units, k: bytes)
    ensures PrintUnits(u, k) == PrintUnits(u, []) + k
  {
    match u
    case Close =>
    case Plain(b, rest) => PrintUnitsAppends(rest, k);
    case Escape(c, rest) => PrintUnitsAppends(rest, k);
    case Unicode(_, _, _, _, rest) => PrintUnitsAppends(rest, k);
  }

  lemma PrintNumberAppends(n: Number, k: bytes)
    ensures PrintNumber(n, k) == PrintNumber(n, []) + k
  {
    assert PrintExp(n.exp, k) == PrintExp(n.exp, []) + k by {
      if n.exp.Exp? {
        assert n.exp.digits + [] == n.exp.digits;
      }
    }
    assert PrintFrac(n.frac, PrintExp(n.exp, k)) == PrintFrac(n.frac, PrintExp(n.exp, [])) + k;
  }

  lemma {:induction false} PrintAppends(v: Value, k: bytes)
    ensures Print(v, k) == Text(v) + k
    decreases v
  {
    match v
    case Lit(w) =>
    case Num(n) => PrintNumberAppends(n, k);
    case Str(u) => PrintUnitsAppends(u, k);
    case EmptyArr(ws) =>
    case Arr(items) => PrintItemsAppends(items, k);
    case EmptyObj(ws) =>
    case Obj(members) => PrintMembersAppends(members, k);
  }

  lemma {:induction false} PrintItemsAppends(items: Items, k: bytes)
    ensures PrintItems(items, k) == PrintItems(items, []) + k
    decreases items
  {
    hide Print;
    var t := AfterItem(items, []);
    assert AfterItem(items, k) == t + k by {
      if items.Item? {
        PrintItemsAppends(items.rest, k);
      }
    }
    assert items.post + (t + k) == (items.post + t) + k;
    PrintAppends(items.v, items.post + t);
    PrintAppends(items.v, items.post + (t + k));
  }

  lemma {:induction false} AfterKeyAppends(m: Members, t: bytes, k: bytes)
    ensures AfterKey(m, t + k) == AfterKey(m, t) + k
    decreases m, 0
  {
    assert m.post + (t + k) == (m.post + t) + k;
    PrintAppends(m.v, m.post + t);
    PrintAppends(m.v, m.post + (t + k));
  }

  lemma {:induction false} PrintMembersAppends(m: Members, k: bytes)
    ensures PrintMembers(m, k) == PrintMembers(m, []) + k
    decreases m, 1
  {
    hide Print, PrintUnits;
    var t := AfterMember(m, []);
    assert AfterMember(m, k) == t + k by {
      if m.Member? {
        PrintMembersAppends(m.rest, k);
      }
    }
    AfterKeyAppends(m, t, k);
    PrintUnitsAppends(m.key, AfterKey(m, t));
    PrintUnitsAppends(m.key, AfterKey(m, t) + k);
  }
}
