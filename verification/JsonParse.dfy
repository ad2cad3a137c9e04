/**
  `serde_json::from_slice` as a function on bytes: the value a document denotes, if it
  is one, every string in it decodes and every number fits.
*/
module JsonParse {
  import opened Bytes
  import opened JsonText
  import opened JsonValue
  import opened JsonSound
  import opened JsonUnique

  ghost predicate Reads(fits: Numbers, s: bytes, v: Value) {
    Strict(fits, v) && exists pre, post :: DocumentOf(s, pre, v, post)
  }

  ghost function Parse(fits: Numbers, s: bytes): Option<JV> {
    if exists v :: Reads(fits, s, v) then
      var v :| Reads(fits, s, v);
      Some(Denote(v))
    else None
  }

  /** A document has one reading, and `Parse` finds it. */
  lemma ParseOf(fits: Numbers, s: bytes, pre: bytes, v: Value, post: bytes)
    requires DocumentOf(s, pre, v, post)
    ensures Parse(fits, s) == if Strict(fits, v) then Some(Denote(v)) else None
  {
    hide Decodes, NumbersFit, Denote, DocumentOf;
    forall v' | Reads(fits, s, v')
      ensures v' == v
    {
      var pre', post' :| DocumentOf(s, pre', v', post');
      DocumentUnique(s, pre, v, post, pre', v', post');
    }
    if Strict(fits, v) {
      assert Reads(fits, s, v);
    }
  }

  lemma ParseOfOther(fits: Numbers, s: bytes)
    requires !IsDocument(s)
    ensures Parse(fits, s) == None
  {
    hide Decodes, NumbersFit, Denote, DocumentOf;
  }

  // ---------- trailing whitespace ----------

  lemma {:induction false} UnitsEnd(u: Units) returns (t: bytes)
    ensures PrintUnits(u, []) == t + [QUOTE]
  {
    match u
    case Close => t := [];
    case Plain(b, rest) =>
      t := UnitsEnd(rest);
      t := [b] + t;
    case Escape(c, rest) =>
      t := UnitsEnd(rest);
      t := [BACKSLASH, c] + t;
    case Unicode(h0, h1, h2, h3, rest) =>
      t := UnitsEnd(rest);
      t := [BACKSLASH, LOWER_U, h0, h1, h2, h3] + t;
  }

  lemma {:induction false} ItemsEnd(items: Items) returns (t: bytes)
    ensures PrintItems(items, []) == t + [RBRACKET]
    decreases items
  {
    var after: bytes;
    if items.Item? {
      after := ItemsEnd(items.rest);
      after := [COMMA] + after;
    } else {
      after := [];
    }
    var x := Text(items.v);
    assert AfterItem(items, []) == after + [RBRACKET];
    PrintAppends(items.v, items.post + (after + [RBRACKET]));
    t := items.pre + (x + (items.post + after));
    assert items.pre + (x + (items.post + (after + [RBRACKET]))) == t + [RBRACKET];
  }

  lemma {:induction false} MembersEnd(m: Members) returns (t: bytes)
    ensures PrintMembers(m, []) == t + [RBRACE]
    decreases m
  {
    var after: bytes;
    if m.Member? {
      after := MembersEnd(m.rest);
      after := [COMMA] + after;
    } else {
      after := [];
    }
    assert AfterMember(m, []) == after + [RBRACE];
    AfterKeyAppends(m, after, [RBRACE]);
    PrintUnitsAppends(m.key, AfterKey(m, after) + [RBRACE]);
    t := m.pre + ([QUOTE] + (PrintUnits(m.key, []) + AfterKey(m, after)));
  }

  lemma NumberEnd(n: Number)
    requires WfNumber(n)
    ensures var s := PrintNumber(n, []); s != [] && !IsWs(s[|s| - 1])
  {
    var s := PrintNumber(n, []);
    var digits := if n.exp.Exp? then n.exp.digits else if n.frac != [] then n.frac else n.whole;
    assert digits + [] == digits && n.whole + [] == n.whole;
    assert s[|s| - 1] == digits[|digits| - 1];
    assert digits[|digits| - 1] in digits;
  }

  /** The text of a value does not end in whitespace. */
  lemma TextEnd(v: Value)
    requires Wf(v)
    ensures Text(v) != [] && !IsWs(Text(v)[|Text(v)| - 1])
  {
    hide PrintNumber, PrintUnits, PrintItems, PrintMembers;
    match v
    case Lit(w) =>
    case Num(n) => NumberEnd(n);
    case Str(u) =>
      var t := UnitsEnd(u);
      assert Text(v) == ([QUOTE] + t) + [QUOTE];
    case EmptyArr(ws) => assert Text(v) == ([LBRACKET] + ws) + [RBRACKET];
    case Arr(items) =>
      var t := ItemsEnd(items);
      assert Text(v) == ([LBRACKET] + t) + [RBRACKET];
    case EmptyObj(ws) => assert Text(v) == ([LBRACE] + ws) + [RBRACE];
    case Obj(members) =>
      var t := MembersEnd(members);
      assert Text(v) == ([LBRACE] + t) + [RBRACE];
  }

  lemma DocumentGrows(s: bytes, b: byte, pre: bytes, v: Value, post: bytes)
    requires DocumentOf(s, pre, v, post) && IsWs(b)
    ensures DocumentOf(s + [b], pre, v, post + [b])
  {
    hide Wf;
    PrintAppends(v, post);
    PrintAppends(v, post + [b]);
  }

  lemma DocumentShrinks(s: bytes, b: byte, pre: bytes, v: Value, post: bytes)
    requires DocumentOf(s + [b], pre, v, post) && IsWs(b)
    ensures post != [] && DocumentOf(s, pre, v, post[..|post| - 1])
  {
    hide Wf, Print, IsWs;
    TextEnd(v);
    PrintAppends(v, post);
    DropLast(s, b, pre, Text(v), post);
    var shorter := post[..|post| - 1];
    PrintAppends(v, shorter);
    assert forall c | c in shorter :: c in post;
  }

  lemma DropLast(s: bytes, b: byte, pre: bytes, x: bytes, post: bytes)
    requires s + [b] == pre + (x + post) && x != [] && x[|x| - 1] != b
    ensures post != [] && s == pre + (x + post[..|post| - 1])
  {
    var whole := s + [b];
    assert whole[|s|] == b && whole[..|s|] == s;
    if post != [] {
      assert whole[..|s|] == pre + (x + post[..|post| - 1]);
    }
  }

  /** One more whitespace byte at the end changes nothing. */
  lemma TrailingWs(fits: Numbers, s: bytes, b: byte)
    requires IsWs(b)
    ensures Parse(fits, s + [b]) == Parse(fits, s) && IsDocument(s + [b]) == IsDocument(s)
  {
    hide DocumentOf, Decodes, NumbersFit, Denote, Parse;
    if IsDocument(s) {
      var pre, v, post :| DocumentOf(s, pre, v, post);
      DocumentGrows(s, b, pre, v, post);
      ParseOf(fits, s, pre, v, post);
      ParseOf(fits, s + [b], pre, v, post + [b]);
    } else {
      ParseOfOther(fits, s);
      if IsDocument(s + [b]) {
        var pre, v, post :| DocumentOf(s + [b], pre, v, post);
        DocumentShrinks(s, b, pre, v, post);
      } else {
        ParseOfOther(fits, s + [b]);
      }
    }
  }
}
