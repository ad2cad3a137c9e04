/**
  The converse direction: whatever the scanner consumes is the text of a
  well-formed tree. Together with `JsonScan` this says that the scanner accepts
  exactly the printed documents.
*/
module JsonSound {
  import opened Bytes
  import opened JsonText
  import opened JsonScan

  lemma {:induction false} ReadWs(s: bytes) returns (ws: bytes)
    ensures AllWs(ws) && s == ws + SkipWs(s)
  {
    if s != [] && IsWs(s[0]) {
      var rest := ReadWs(s[1..]);
      ws := [s[0]] + rest;
    } else {
      ws := [];
    }
  }

  lemma {:induction false} ReadDigits(s: bytes) returns (d: bytes)
    ensures AllDigits(d) && s == d + Digits(s)
    ensures s != [] && IsDigit(s[0]) ==> d != [] && d[0] == s[0]
  {
    if s != [] && IsDigit(s[0]) {
      var rest := ReadDigits(s[1..]);
      d := [s[0]] + rest;
    } else {
      d := [];
    }
  }

  lemma {:induction false} ReadUnits(s: bytes, k: bytes) returns (u: Units)
    requires SkipUnits(s) == Some(k)
    ensures WfUnits(u) && s == PrintUnits(u, k)
    decreases |s|
  {
    if s[0] == QUOTE {
      u := Close;
    } else if s[0] == BACKSLASH {
      if s[1] == LOWER_U {
        var rest := ReadUnits(s[6..], k) by { assert s[1..][1..][4..] == s[6..]; }
        u := Unicode(s[2], s[3], s[4], s[5], rest);
        assert s == [BACKSLASH, LOWER_U, s[2], s[3], s[4], s[5]] + s[6..];
      } else {
        var rest := ReadUnits(s[2..], k) by { assert s[1..][1..] == s[2..]; }
        u := Escape(s[1], rest);
        assert s == [BACKSLASH, s[1]] + s[2..];
      }
    } else {
      var rest := ReadUnits(s[1..], k);
      u := Plain(s[0], rest);
    }
  }

  lemma ReadExp(s: bytes, k: bytes) returns (e: Exp)
    requires SkipExp(s) == Some(k)
    ensures WfExp(e) && s == PrintExp(e, k)
  {
    if s != [] && (s[0] == LOWER_E || s[0] == UPPER_E) {
      var t := SkipSign(s[1..]);
      var digits := ReadDigits(t);
      var sign := if t == s[1..] then [] else [s[1]];
      assert s[1..] == sign + t;
      e := Exp(s[0], sign, digits);
    } else {
      e := NoExp;
    }
  }

  lemma ReadWhole(t: bytes, f: bytes) returns (whole: bytes)
    requires SkipWhole(t) == Some(f)
    ensures whole != [] && AllDigits(whole) && (whole[0] == ZERO ==> |whole| == 1) && t == whole + f
  {
    if t[0] == ZERO {
      whole := [ZERO];
    } else {
      whole := ReadDigits(t);
    }
  }

  lemma ReadFrac(f: bytes, x: bytes) returns (frac: bytes)
    requires SkipFrac(f) == Some(x)
    ensures AllDigits(frac) && f == PrintFrac(frac, x)
  {
    if f != [] && f[0] == DOT {
      frac := ReadDigits(f[1..]);
      assert f == [DOT] + f[1..];
    } else {
      frac := [];
    }
  }

  lemma ReadNumber(s: bytes, k: bytes) returns (n: Number)
    requires SkipNumber(s) == Some(k)
    ensures WfNumber(n) && s == PrintNumber(n, k)
  {
    hide PrintExp, WfExp, SkipExp, SkipWhole, SkipFrac, PrintFrac, AllDigits;
    var neg := s != [] && s[0] == MINUS;
    var t := if neg then s[1..] else s;
    var f := SkipWhole(t).value;
    var x := SkipFrac(f).value;
    var whole := ReadWhole(t, f);
    var frac := ReadFrac(f, x);
    var exp := ReadExp(x, k);
    n := Number(neg, whole, frac, exp);
    assert s == (if neg then [MINUS] else []) + t;
  }

  lemma ReadScalar(t: bytes, k: bytes) returns (v: Value)
    requires SkipValue(t) == Some(k) && t != [] && !IsWs(t[0]) && t[0] != LBRACE && t[0] != LBRACKET
    ensures Wf(v) && t == Print(v, k)
  {
    if t[0] == QUOTE {
      var u := ReadUnits(t[1..], k);
      v := Str(u);
    } else if t[0] == 0x74 {
      v := Lit(True);
    } else if t[0] == 0x66 {
      v := Lit(False);
    } else if t[0] == 0x6E {
      v := Lit(Null);
    } else {
      var n := ReadNumber(t, k);
      v := Num(n);
    }
  }

  /** Every byte string the scanner consumes as a value is whitespace followed by
      the text of a well-formed tree. */
  lemma {:induction false} ReadValue(s: bytes, k: bytes) returns (pre: bytes, v: Value)
    requires SkipValue(s) == Some(k)
    ensures AllWs(pre) && Wf(v) && s == pre + Print(v, k)
    decreases |s|, 1
  {
    hide Print, SkipArray, SkipObject, SkipNumber, SkipString;
    pre := ReadWs(s);
    var t := SkipWs(s);
    if t[0] == LBRACE {
      v := ReadObject(t[1..], k);
    } else if t[0] == LBRACKET {
      v := ReadArray(t[1..], k);
    } else {
      assert SkipWs(t) == t;
      v := ReadScalar(t, k);
    }
  }

  lemma {:induction false} ReadArray(s: bytes, k: bytes) returns (v: Value)
    requires SkipArray(s) == Some(k)
    ensures Wf(v) && (v.EmptyArr? || v.Arr?) && [LBRACKET] + s == Print(v, k)
    decreases |s|, 3
  {
    var ws := ReadWs(s);
    var t := SkipWs(s);
    if t != [] && t[0] == RBRACKET {
      v := EmptyArr(ws);
      assert t == [RBRACKET] + k;
    } else {
      var items := ReadItems(t, k);
      v := Arr(items.(pre := ws + items.pre));
      assert s == PrintItems(v.items, k) by {
        assert AfterItem(v.items, k) == AfterItem(items, k);
        AssocAppend(ws, items.pre, Print(items.v, items.post + AfterItem(items, k)));
      }
    }
  }

  lemma AssocAppend(a: bytes, b: bytes, c: bytes)
    ensures (a + b) + c == a + (b + c)
  {
  }

  lemma {:induction false} ReadItems(s: bytes, k: bytes) returns (items: Items)
    requires SkipItems(s) == Some(k)
    ensures WfItems(items) && s == PrintItems(items, k)
    decreases |s|, 2
  {
    var r := SkipValue(s).value;
    var t := SkipWs(r);
    var pre, v := ReadValue(s, r);
    var post := ReadWs(r);
    if t[0] == COMMA {
      var rest := ReadItems(t[1..], k);
      items := Item(pre, v, post, rest);
    } else {
      items := LastItem(pre, v, post);
    }
    assert AfterItem(items, k) == t;
  }

  lemma {:induction false} ReadObject(s: bytes, k: bytes) returns (v: Value)
    requires SkipObject(s) == Some(k)
    ensures Wf(v) && (v.EmptyObj? || v.Obj?) && [LBRACE] + s == Print(v, k)
    decreases |s|, 4
  {
    var ws := ReadWs(s);
    var t := SkipWs(s);
    if t != [] && t[0] == RBRACE {
      v := EmptyObj(ws);
      assert t == [RBRACE] + k;
    } else {
      var m := ReadMembers(t, k);
      v := Obj(m.(pre := ws + m.pre));
      assert s == PrintMembers(v.members, k) by {
        assert AfterMember(v.members, k) == AfterMember(m, k);
        AssocAppend(ws, m.pre, [QUOTE] + PrintUnits(m.key, AfterKey(m, AfterMember(m, k))));
      }
    }
  }

  /** The value of a member, from the byte after its key to its delimiter. */
  lemma {:induction false} ReadAfterKey(s: bytes, t: bytes) returns (m: Members)
    requires Expect(SkipWs(s), COLON).Some?
    requires SkipValue(SkipWs(s)[1..]).Some? && SkipWs(SkipValue(SkipWs(s)[1..]).value) == t
    ensures AllWs(m.mid) && AllWs(m.vpre) && Wf(m.v) && AllWs(m.post) && s == AfterKey(m, t)
    decreases |s|, 2
  {
    hide SkipWs, SkipValue, Print, Wf;
    var s4 := SkipWs(s)[1..];
    var s5 := SkipValue(s4).value;
    var mid := ReadWs(s);
    var vpre, v := ReadValue(s4, s5);
    var post := ReadWs(s5);
    m := LastMember([], Close, mid, vpre, v, post);
  }

  lemma {:induction false} ReadMember(s: bytes, s2: bytes, t: bytes) returns (m: Members)
    requires SkipString(SkipWs(s)) == Some(s2) && Expect(SkipWs(s2), COLON).Some?
    requires SkipValue(SkipWs(s2)[1..]).Some? && SkipWs(SkipValue(SkipWs(s2)[1..]).value) == t
    ensures m.LastMember? && WfMembers(m)
    ensures s == m.pre + ([QUOTE] + PrintUnits(m.key, AfterKey(m, t)))
    decreases |s|, 2
  {
    var s1 := SkipWs(s);
    var pre := ReadWs(s);
    var key := ReadUnits(s1[1..], s2);
    var a := ReadAfterKey(s2, t);
    m := LastMember(pre, key, a.mid, a.vpre, a.v, a.post);
    assert AfterKey(m, t) == AfterKey(a, t);
    assert s1 == [QUOTE] + s1[1..];
  }

  lemma {:induction false} ReadMembers(s: bytes, k: bytes) returns (m: Members)
    requires SkipMembers(s) == Some(k)
    ensures WfMembers(m) && s == PrintMembers(m, k)
    decreases |s|, 3
  {
    var s2 := SkipString(SkipWs(s)).value;
    var t := SkipWs(SkipValue(SkipWs(s2)[1..]).value);
    m := ReadMember(s, s2, t);
    if t[0] == COMMA {
      var rest := ReadMembers(t[1..], k);
      var last := m;
      m := Member(last.pre, last.key, last.mid, last.vpre, last.v, last.post, rest);
      assert AfterKey(m, t) == AfterKey(last, t);
    }
    assert AfterMember(m, k) == t;
  }

  /** The documents of the grammar: whitespace around one well-formed value. */
  ghost predicate IsDocument(s: bytes) {
    exists pre, v, post :: DocumentOf(s, pre, v, post)
  }

  ghost predicate DocumentOf(s: bytes, pre: bytes, v: Value, post: bytes) {
    AllWs(pre) && Wf(v) && AllWs(post) && s == pre + Print(v, post)
  }

  lemma DocumentIsValid(s: bytes, pre: bytes, v: Value, post: bytes)
    requires DocumentOf(s, pre, v, post)
    ensures ValidDocument(s) && SkipValue(s) == Some(post)
    ensures SkipWs(s) == Print(v, post)
  {
    SkipPastWs(pre, Print(v, post));
    SkipWsOver(pre, Print(v, post));
    PrintHead(v, post);
    assert EndsNumber(post) by {
      if post != [] { assert post[0] in post; }
    }
    SkipValueOver(v, post);
    assert post + [] == post;
    SkipWsOver(post, []);
  }

  /** `validate` accepts exactly the documents. */
  lemma ValidIffDocument(s: bytes)
    ensures ValidDocument(s) <==> IsDocument(s)
  {
    if ValidDocument(s) {
      var post := SkipValue(s).value;
      var pre, v := ReadValue(s, post);
      var ws := ReadWs(post);
      assert ws + [] == ws;
      assert DocumentOf(s, pre, v, post);
    }
    if IsDocument(s) {
      var pre, v, post :| DocumentOf(s, pre, v, post);
      DocumentIsValid(s, pre, v, post);
    }
  }
}
