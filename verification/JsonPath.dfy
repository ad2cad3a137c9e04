/**
  Reading one scalar out of a body without parsing it: `scalar_at_path` walks the
  bytes, entering the first member of each name. It is measured against the same walk
  on the syntax tree, and that against the parsed value.
*/
module JsonPath {
  import opened Bytes
  import opened JsonText
  import opened JsonScan
  import opened JsonString
  import opened JsonSound
  import opened JsonValue

  // ---------- on the bytes ahead ----------

  /** From inside an object, to the value of its first member named `key`. */
  function EnterMembers(s: bytes, key: bytes): (r: Option<bytes>)
    decreases |s|
  {
    var d :- ReadString(SkipWs(s));
    var t :- Expect(SkipWs(d.rest), COLON);
    var v := SkipWs(t);
    if d.text == key then Some(v)
    else
      var u :- SkipValue(v);
      var w :- Expect(SkipWs(u), COMMA);
      EnterMembers(w, key)
  }

  function EnterField(s: bytes, key: bytes): Option<bytes> {
    var t :- Expect(SkipWs(s), LBRACE);
    var u := SkipWs(t);
    if u != [] && u[0] == RBRACE then None else EnterMembers(u, key)
  }

  /** A string decoded, a number or a truth value as it is written; nothing else. */
  function ScalarString(s: bytes): Option<bytes> {
    if s == [] then None
    else if s[0] == QUOTE then
      var d :- ReadString(s);
      Some(d.text)
    else if s[0] == 0x74 then
      var _ :- SkipWord(s, True);
      Some(WordText(True))
    else if s[0] == 0x66 then
      var _ :- SkipWord(s, False);
      Some(WordText(False))
    else if s[0] == MINUS || IsDigit(s[0]) then
      var k :- SkipNumber(s);
      Some(s[..|s| - |k|])
    else None
  }

  function EnterAll(s: bytes, path: seq<bytes>): Option<bytes>
    decreases |path|
  {
    if path == [] then Some(s)
    else
      var t :- EnterField(s, path[0]);
      EnterAll(t, path[1..])
  }

  function ScalarAt(body: bytes, path: seq<bytes>): Option<bytes> {
    var s :- EnterAll(body, path);
    ScalarString(SkipWs(s))
  }

  // ---------- on the tree ----------

  /** The first member named `key`, if every name before it decodes. */
  function FirstMember(m: Members, key: bytes): Option<Value> {
    var k :- KeyOf(m.key);
    if k == key then Some(m.v)
    else if m.Member? then FirstMember(m.rest, key)
    else None
  }

  function FieldOf(v: Value, key: bytes): Option<Value> {
    if v.Obj? then FirstMember(v.members, key) else None
  }

  function Follow(v: Value, path: seq<bytes>): Option<Value>
    decreases |path|
  {
    if path == [] then Some(v)
    else
      var x :- FieldOf(v, path[0]);
      Follow(x, path[1..])
  }

  function ScalarOf(v: Value): Option<bytes> {
    match v
    case Str(u) => KeyOf(u)
    case Lit(True) => Some(WordText(True))
    case Lit(False) => Some(WordText(False))
    case Num(n) => Some(PrintNumber(n, []))
    case _ => None
  }

  /** The scalars: a string's meaning, and the spelling of a number or a truth value. */
  lemma ScalarOfIs(v: Value)
    ensures match v
            case Str(u) => ScalarOf(v) == DecodeUnits(u) || (ScalarOf(v).None? && KeyOf(u).None?)
            case Lit(True) => ScalarOf(v) == Some(Ascii("true"))
            case Lit(False) => ScalarOf(v) == Some(Ascii("false"))
            case Num(n) => ScalarOf(v) == Some(Text(v))
            case _ => ScalarOf(v).None?
  {
    assert Ascii("true") == WordText(True) && Ascii("false") == WordText(False);
  }

  lemma SkipWsAt(ws: bytes, v: Value, k: bytes)
    requires AllWs(ws) && Wf(v)
    ensures SkipWs(ws + Print(v, k)) == Print(v, k) && SkipWs(Print(v, k)) == Print(v, k)
  {
    SkipWsOver(ws, Print(v, k));
    PrintHead(v, k);
  }

  /** The walk finds the value the tree has first under the name, with what follows it. */
  lemma {:induction false} EnterMembersOver(m: Members, k: bytes, key: bytes) returns (after: bytes)
    requires WfMembers(m)
    ensures EnterMembers(PrintMembers(m, k), key) ==
            (match FirstMember(m, key) case None => None case Some(x) => Some(Print(x, after)))
    ensures FirstMember(m, key).Some? ==> Wf(FirstMember(m, key).value) && EndsNumber(after)
    decreases m
  {
    hide Print, PrintUnits, ReadString, KeyOf, Wf, WfUnits, SkipValue, SkipWs, EndsNumber;
    var t := AfterMember(m, k);
    var rest := m.post + t;
    var body := [QUOTE] + PrintUnits(m.key, AfterKey(m, t));
    SkipWsQuote(m.pre, PrintUnits(m.key, AfterKey(m, t)));
    ReadStringOver(m.key, AfterKey(m, t));
    SkipWsColon(m.mid, m.vpre + Print(m.v, rest));
    SkipWsAt(m.vpre, m.v, rest);
    AfterMemberEnds(m, k);
    after := rest;
    if KeyOf(m.key).Some? && KeyOf(m.key).value != key {
      SkipValueOver(m.v, rest);
      SkipWsAfter(m, k);
      if m.Member? {
        after := EnterMembersOver(m.rest, k, key);
      }
    }
  }

  lemma SkipWsQuote(ws: bytes, k: bytes)
    requires AllWs(ws)
    ensures SkipWs(ws + ([QUOTE] + k)) == [QUOTE] + k
  {
    SkipWsOver(ws, [QUOTE] + k);
  }

  lemma SkipWsColon(ws: bytes, k: bytes)
    requires AllWs(ws)
    ensures SkipWs(ws + ([COLON] + k)) == [COLON] + k && Expect([COLON] + k, COLON) == Some(k)
  {
    SkipWsOver(ws, [COLON] + k);
    assert ([COLON] + k)[1..] == k;
  }

  lemma AfterMemberEnds(m: Members, k: bytes)
    requires WfMembers(m)
    ensures EndsNumber(m.post + AfterMember(m, k))
  {
    PostEndsNumber(m.post, AfterMember(m, k));
  }

  lemma SkipWsAfter(m: Members, k: bytes)
    requires WfMembers(m)
    ensures Expect(SkipWs(m.post + AfterMember(m, k)), COMMA) ==
            if m.Member? then Some(PrintMembers(m.rest, k)) else None
  {
    hide PrintMembers;
    SkipWsOver(m.post, AfterMember(m, k));
    if m.Member? {
      assert AfterMember(m, k)[1..] == PrintMembers(m.rest, k);
    }
  }

  lemma EnterFieldOver(ws: bytes, v: Value, k: bytes, key: bytes) returns (after: bytes)
    requires AllWs(ws) && Wf(v)
    ensures EnterField(ws + Print(v, k), key) ==
            (match FieldOf(v, key) case None => None case Some(x) => Some(Print(x, after)))
    ensures FieldOf(v, key).Some? ==> Wf(FieldOf(v, key).value) && EndsNumber(after)
  {
    hide PrintMembers, EnterMembers, FirstMember, EndsNumber;
    after := [];
    SkipWsAt(ws, v, k);
    var s := Print(v, k);
    if v.Obj? {
      assert s[1..] == PrintMembers(v.members, k);
      after := EnterMembersOver(v.members, k, key);
      PastWs(v.members, k, key);
    } else if v.EmptyObj? {
      assert s[1..] == v.ws + ([RBRACE] + k);
      SkipWsOver(v.ws, [RBRACE] + k);
    } else {
      NotBrace(v, k);
    }
  }

  lemma NotBrace(v: Value, k: bytes)
    requires Wf(v) && !v.Obj? && !v.EmptyObj?
    ensures Print(v, k) != [] && Print(v, k)[0] != LBRACE
  {
    if v.Num? && !v.n.neg {
      assert v.n.whole[0] in v.n.whole;
    }
  }

  lemma PastWs(m: Members, k: bytes, key: bytes)
    requires WfMembers(m)
    ensures var s := PrintMembers(m, k);
            SkipWs(s) != [] && SkipWs(s)[0] != RBRACE && EnterMembers(SkipWs(s), key) == EnterMembers(s, key)
  {
    hide ReadString, SkipValue;
    SkipWsQuote(m.pre, PrintUnits(m.key, AfterKey(m, AfterMember(m, k))));
  }

  lemma ScalarOver(v: Value, k: bytes)
    requires Wf(v) && EndsNumber(k)
    ensures ScalarString(Print(v, k)) == ScalarOf(v)
  {
    hide ReadString, KeyOf, PrintUnits, PrintNumber, SkipNumber;
    match v
    case Str(u) => ReadStringOver(u, k);
    case Num(n) =>
      SkipNumberOver(n, k);
      PrintNumberAppends(n, k);
      assert PrintNumber(n, k)[..|PrintNumber(n, k)| - |k|] == PrintNumber(n, []);
    case Lit(w) => assert WordText(w) <= Print(v, k);
    case _ =>
  }

  lemma {:induction false} EnterAllOver(ws: bytes, v: Value, k: bytes, path: seq<bytes>)
    requires AllWs(ws) && Wf(v) && EndsNumber(k)
    ensures (match EnterAll(ws + Print(v, k), path)
             case None => Follow(v, path) == None
             case Some(s) => Follow(v, path).Some? && ScalarString(SkipWs(s)) == ScalarOf(Follow(v, path).value))
    decreases |path|
  {
    hide EnterField, FieldOf, ScalarString, ScalarOf, Print, Wf, EndsNumber, SkipWs;
    if path == [] {
      SkipWsAt(ws, v, k);
      ScalarOver(v, k);
    } else {
      var after := EnterFieldOver(ws, v, k, path[0]);
      if FieldOf(v, path[0]).Some? {
        var x := FieldOf(v, path[0]).value;
        assert [] + Print(x, after) == Print(x, after);
        EnterAllOver([], x, after, path[1..]);
      }
    }
  }

  /** On every document `scalar_at_path` returns the scalar the syntax tree has under
      the path, whatever the spelling of the names on the way, and nothing when there is
      no such member or it is not a scalar. */
  lemma ScalarAtDocument(body: bytes, pre: bytes, v: Value, post: bytes, path: seq<bytes>)
    requires DocumentOf(body, pre, v, post)
    ensures ScalarAt(body, path) ==
            (match Follow(v, path) case None => None case Some(x) => ScalarOf(x))
  {
    hide EnterAll, Follow, ScalarString, ScalarOf, Print, Wf, SkipWs;
    assert EndsNumber(post) by {
      if post != [] { assert post[0] in post; }
    }
    EnterAllOver(pre, v, post, path);
  }

  // ---------- against the parsed value ----------

  /** How many members have the name. */
  function Count(m: Members, key: bytes): nat {
    (if KeyOf(m.key) == Some(key) then 1 else 0) + if m.Member? then Count(m.rest, key) else 0
  }

  lemma {:induction false} CountIsField(m: Members, key: bytes)
    requires MembersDecode(m)
    ensures Count(m, key) == 0 <==> key !in DenoteMembers(m)
    ensures FirstMember(m, key).Some? <==> key in DenoteMembers(m)
    ensures FirstMember(m, key).Some? ==> Decodes(FirstMember(m, key).value)
    decreases m
  {
    hide KeyOf, Decodes, Denote;
    if m.Member? {
      CountIsField(m.rest, key);
    }
  }

  /** The last member of the name. */
  function LastMemberOf(m: Members, key: bytes): Option<Value> {
    var later := if m.Member? then LastMemberOf(m.rest, key) else None;
    if later.Some? then later else if KeyOf(m.key) == Some(key) then Some(m.v) else None
  }

  lemma {:induction false} LastCounts(m: Members, key: bytes)
    requires MembersDecode(m)
    ensures LastMemberOf(m, key).Some? <==> key in DenoteMembers(m)
    ensures key in DenoteMembers(m) ==>
              Decodes(LastMemberOf(m, key).value) && Denote(LastMemberOf(m, key).value) == DenoteMembers(m)[key]
    decreases m
  {
    hide KeyOf, Decodes, Denote;
    if m.Member? {
      LastCounts(m.rest, key);
    }
  }

  lemma {:induction false} OnceIsBoth(m: Members, key: bytes)
    requires MembersDecode(m) && Count(m, key) == 1
    ensures FirstMember(m, key).Some? && FirstMember(m, key) == LastMemberOf(m, key)
    decreases m
  {
    hide KeyOf, Decodes;
    if m.Member? {
      CountIsField(m.rest, key);
      LastCounts(m.rest, key);
      if KeyOf(m.key) != Some(key) {
        OnceIsBoth(m.rest, key);
      }
    }
  }

  /** The walk enters the first member of a name, a parser keeps the last. The two see
      the same value exactly when those members denote the same value; they are one
      member when the name occurs once. */
  lemma FirstIsLast(m: Members, key: bytes)
    requires MembersDecode(m) && key in DenoteMembers(m)
    ensures FirstMember(m, key).Some? && Decodes(FirstMember(m, key).value)
    ensures LastMemberOf(m, key).Some? && Decodes(LastMemberOf(m, key).value)
    ensures Denote(FirstMember(m, key).value) == DenoteMembers(m)[key] <==>
            Denote(FirstMember(m, key).value) == Denote(LastMemberOf(m, key).value)
    ensures Count(m, key) == 1 ==> FirstMember(m, key) == LastMemberOf(m, key)
  {
    hide KeyOf, Decodes, Denote;
    CountIsField(m, key);
    LastCounts(m, key);
    if Count(m, key) == 1 {
      OnceIsBoth(m, key);
    }
  }
}
