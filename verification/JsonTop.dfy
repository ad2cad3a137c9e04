/**
  The top level of a JSON object: its decoded member names, whether it has any,
  and where its members start. `TopLevelOf` says what the scanner reads;
  `TopLevelIffObject` says which documents it reads it from.
*/
module JsonTop {
  import opened Bytes
  import opened JsonText
  import opened JsonScan
  import opened JsonSound
  import opened JsonString

  datatype TopLevel = TopLevel(insertAt: nat, empty: bool, keys: seq<bytes>)

  datatype TopResult = Located(top: TopLevel) | NotAnObject | Invalid

  // ---------- of a tree ----------

  predicate IsObject(v: Value) {
    v.EmptyObj? || v.Obj?
  }

  function MemberKeys(m: Members): Option<seq<bytes>> {
    var k :- KeyOf(m.key);
    match m
    case LastMember(_, _, _, _, _, _) => Some([k])
    case Member(_, _, _, _, _, _, rest) =>
      var ks :- MemberKeys(rest);
      Some([k] + ks)
  }

  /** The decoded member names of an object, in order; `None` when one of them is
      not legal UTF-8 or uses an escape outside RFC 8259. */
  function ObjectKeys(v: Value): Option<seq<bytes>>
    requires IsObject(v)
  {
    if v.EmptyObj? then Some([]) else MemberKeys(v.members)
  }

  // ---------- of the bytes ----------

  datatype Keyed = Keyed(keys: seq<bytes>, rest: bytes)

  /** One member: its decoded name, and the bytes from its delimiter on. */
  function ScanMember(s: bytes): (r: Option<Decoded>)
    ensures r.Some? ==> |r.value.rest| < |s|
  {
    var d :- ReadString(SkipWs(s));
    var t :- Expect(SkipWs(d.rest), COLON);
    var t :- SkipValue(t);
    Some(Decoded(d.text, SkipWs(t)))
  }

  function ScanMembers(s: bytes): (r: Option<Keyed>)
    decreases |s|
    ensures r.Some? ==> |r.value.rest| < |s|
  {
    var m :- ScanMember(s);
    if m.rest == [] then None
    else if m.rest[0] == COMMA then
      var r :- ScanMembers(m.rest[1..]);
      Some(Keyed([m.text] + r.keys, r.rest))
    else if m.rest[0] == RBRACE then Some(Keyed([m.text], m.rest[1..]))
    else None
  }

  /** An object, after its opening brace. */
  function ScanObject(s: bytes): (r: Option<Keyed>)
    ensures r.Some? ==> |r.value.rest| < |s|
  {
    var t := SkipWs(s);
    if t != [] && t[0] == RBRACE then Some(Keyed([], t[1..])) else ScanMembers(t)
  }

  function TopLevelOf(body: bytes): TopResult {
    var s := SkipWs(body);
    if s == [] || s[0] != LBRACE then
      if ValidDocument(body) then NotAnObject else Invalid
    else
      match ScanObject(s[1..])
      case None => Invalid
      case Some(r) =>
        if SkipWs(r.rest) == [] then Located(TopLevel(|body| - |s| + 1, r.keys == [], r.keys)) else Invalid
  }

  // ---------- the two agree ----------

  lemma {:induction false} ScanMembersOver(m: Members, k: bytes)
    requires WfMembers(m)
    ensures ScanMembers(PrintMembers(m, k)) ==
            (match MemberKeys(m) case None => None case Some(ks) => Some(Keyed(ks, k)))
    ensures MemberKeys(m).Some? ==> MemberKeys(m).value != []
    decreases m
  {
    hide Print, PrintUnits, ReadString, SkipValue, KeyOf, WfUnits, Wf;
    var t := AfterMember(m, k);
    var body := [QUOTE] + PrintUnits(m.key, AfterKey(m, t));
    SkipWsOver(m.pre, body);
    ReadStringOver(m.key, AfterKey(m, t));
    SkipMemberOver(m, t);
    if m.Member? {
      assert t[1..] == PrintMembers(m.rest, k);
      ScanMembersOver(m.rest, k);
    } else {
      assert t[1..] == k;
    }
  }

  lemma ScannedMemberIsSkipped(s: bytes)
    requires ScanMember(s).Some?
    ensures SkipMember(s) == Some(ScanMember(s).value.rest)
  {
    DecodedIsSkipped(SkipWs(s)[1..]);
  }

  lemma {:induction false} ScannedIsSkipped(s: bytes)
    requires ScanMembers(s).Some?
    ensures SkipMembers(s) == Some(ScanMembers(s).value.rest)
    decreases |s|
  {
    ScannedMemberIsSkipped(s);
    var t := ScanMember(s).value.rest;
    if t[0] == COMMA {
      ScannedIsSkipped(t[1..]);
    }
  }

  lemma ScanObjectOver(v: Value, post: bytes)
    requires Wf(v) && IsObject(v)
    ensures Print(v, post) != [] && Print(v, post)[0] == LBRACE
    ensures ScanObject(Print(v, post)[1..]) ==
            (match ObjectKeys(v) case None => None case Some(ks) => Some(Keyed(ks, post)))
    ensures ObjectKeys(v).Some? ==> (ObjectKeys(v).value == [] <==> v.EmptyObj?)
  {
    if v.EmptyObj? {
      SkipWsOver(v.ws, [RBRACE] + post);
      assert Print(v, post)[1..] == v.ws + ([RBRACE] + post);
      assert ([RBRACE] + post)[1..] == post;
    } else {
      assert Print(v, post)[1..] == PrintMembers(v.members, post);
      ScanMembersOver(v.members, post);
      ScanPastWs(v.members, post);
    }
  }

  /** Member lists start with a quote, so the leading whitespace decides nothing. */
  lemma ScanPastWs(m: Members, post: bytes)
    requires WfMembers(m)
    ensures ScanObject(PrintMembers(m, post)) == ScanMembers(PrintMembers(m, post))
  {
    hide PrintUnits, Print, ScanMember, ReadString, SkipValue;
    var body := [QUOTE] + PrintUnits(m.key, AfterKey(m, AfterMember(m, post)));
    SkipWsOver(m.pre, body);
    ScanMemberPastWs(m.pre, body);
  }

  lemma ScanMemberPastWs(ws: bytes, body: bytes)
    requires AllWs(ws)
    ensures ScanMember(ws + body) == ScanMember(body) && ScanMember(SkipWs(ws + body)) == ScanMember(body)
  {
    hide ReadString, SkipValue;
    SkipWsOver(ws, body);
    SkipWsOver([], SkipWs(body));
    SkipWsTwice(body);
  }

  lemma {:induction false} SkipWsTwice(s: bytes)
    ensures SkipWs(SkipWs(s)) == SkipWs(s)
  {
  }

  /** What the scanner reads from a document, whichever value it holds. */
  lemma TopLevelOfDocument(body: bytes, pre: bytes, v: Value, post: bytes)
    requires DocumentOf(body, pre, v, post)
    ensures TopLevelOf(body) ==
            if !IsObject(v) then NotAnObject
            else match ObjectKeys(v)
                 case None => Invalid
                 case Some(ks) => Located(TopLevel(|pre| + 1, v.EmptyObj?, ks))
  {
    DocumentIsValid(body, pre, v, post);
    var s := Print(v, post);
    if IsObject(v) {
      ScanObjectOver(v, post);
      assert SkipWs(post) == [];
    } else {
      if v.Num? && !v.n.neg {
        assert v.n.whole[0] in v.n.whole;
      }
      assert s[0] != LBRACE;
    }
  }

  ghost predicate LocatedIn(body: bytes, top: TopLevel, pre: bytes, v: Value, post: bytes) {
    DocumentOf(body, pre, v, post) && IsObject(v) && ObjectKeys(v) == Some(top.keys)
    && top.empty == v.EmptyObj? && top.insertAt == |pre| + 1
  }

  lemma ScannedObjectIsSkipped(s: bytes)
    requires ScanObject(s).Some?
    ensures SkipObject(s) == Some(ScanObject(s).value.rest)
  {
    var t := SkipWs(s);
    if !(t != [] && t[0] == RBRACE) {
      ScannedIsSkipped(t);
    }
  }

  lemma LocatedIsObject(body: bytes) returns (pre: bytes, v: Value, post: bytes)
    requires TopLevelOf(body).Located?
    ensures LocatedIn(body, TopLevelOf(body).top, pre, v, post)
  {
    hide ScanObject, SkipObject;
    pre := ReadWs(body);
    var s := SkipWs(body);
    post := ScanObject(s[1..]).value.rest;
    ScannedObjectIsSkipped(s[1..]);
    v := ReadObject(s[1..], post);
    assert s == [LBRACE] + s[1..];
    var ws := ReadWs(post);
    assert ws + [] == ws;
    assert DocumentOf(body, pre, v, post);
    TopLevelOfDocument(body, pre, v, post);
  }

  /** `object_top_level` succeeds exactly on the object documents whose member names
      decode, returning those names in order, whether there are any, and the offset
      just past the opening brace; it answers "not an object" exactly on the other
      documents whose value is not an object. */
  lemma TopLevelIffObject(body: bytes, top: TopLevel)
    ensures TopLevelOf(body) == Located(top) <==> exists pre, v, post :: LocatedIn(body, top, pre, v, post)
    ensures TopLevelOf(body) == NotAnObject <==> exists pre, v, post :: DocumentOf(body, pre, v, post) && !IsObject(v)
  {
    if TopLevelOf(body) == Located(top) {
      var pre, v, post := LocatedIsObject(body);
    }
    forall pre, v, post | LocatedIn(body, top, pre, v, post)
      ensures TopLevelOf(body) == Located(top)
    {
      TopLevelOfDocument(body, pre, v, post);
    }
    if TopLevelOf(body) == NotAnObject {
      ValidIffDocument(body);
      var pre, v, post :| DocumentOf(body, pre, v, post);
      TopLevelOfDocument(body, pre, v, post);
    }
    forall pre, v, post | DocumentOf(body, pre, v, post) && !IsObject(v)
      ensures TopLevelOf(body) == NotAnObject
    {
      TopLevelOfDocument(body, pre, v, post);
    }
  }
}
