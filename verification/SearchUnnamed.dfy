/**
  A response on which the buffered path shapes nothing: one top-level name that does not
  decode keeps it from seeing the members at all.
*/
module SearchUnnamed {
  import opened Bytes
  import opened JsonRaw
  import opened JsonString
  import opened JsonText
  import opened JsonValue
  import opened ReadShaping
  import opened SearchOracle
  import opened SearchScan
  import opened SearchTree
  import Utf8

  /** `"\ud800"`, a name no string spells. */
  const LONE: Units := Unicode(0x64, 0x38, 0x30, 0x30, Close)

  const HITS_UNITS: Units := Plain(0x68, Plain(0x69, Plain(0x74, Plain(0x73, Close))))

  function HitsMember(v: Value): Members {
    LastMember([], HITS_UNITS, [], [], v, [])
  }

  /** `{"\ud800":{},"hits":{"hits":[<hit>]}}`. */
  function Unnamed(hit: Value): Value {
    Obj(Member([], LONE, [], [], EmptyObj([]), [], HitsMember(Obj(HitsMember(Arr(LastItem([], hit, [])))))))
  }

  /** One member whose name does not decode, and `shape_hits` leaves the hits as they
      are; the stream shapes them. */
  lemma UnnamedIsUnshaped(fits: Numbers, ser: JV -> Value, shape: JV -> JV)
    ensures ShapeHits(fits, ser, shape, Text(Unnamed(EmptyObj([])))) == Unchanged
    ensures ReshapeValue(fits, ser, shape, Unnamed(EmptyObj([]))) == Unnamed(ser(shape(JObj(map[]))))
  {
    var v := Unnamed(EmptyObj([]));
    UnnamedIsRaw();
    assert [] + Text(v) == Text(v) by { hide *; }
    UnnamedShaped(fits, ser, shape);
    hide IsRaw, IsRawObject, Print, ReshapeValue, ShapeHits, Wf;
    ShapeHitsOf(fits, ser, shape, Text(v), [], v, []);
  }

  lemma UnnamedShaped(fits: Numbers, ser: JV -> Value, shape: JV -> JV)
    ensures ReshapeValue(fits, ser, shape, Unnamed(EmptyObj([]))) == Unnamed(ser(shape(JObj(map[]))))
  {
    hide KeyIsHits;
    LoneIsNoName();
    HitsIsHits();
  }

  lemma LoneIsNoName()
    ensures KeyOf(LONE).None? && !KeyIsHits(LONE)
  {
  }

  lemma HitsIsHits()
    ensures KeyIsHits(HITS_UNITS)
  {
    DecodePlain(0x73, Close, [], [0x73]);
    DecodePlain(0x74, Plain(0x73, Close), [0x73], [0x74, 0x73]);
    DecodePlain(0x69, Plain(0x74, Plain(0x73, Close)), [0x74, 0x73], [0x69, 0x74, 0x73]);
    DecodePlain(0x68, Plain(0x69, Plain(0x74, Plain(0x73, Close))), [0x69, 0x74, 0x73], HITS);
  }

  lemma DecodePlain(b: byte, u: Units, s: bytes, t: bytes)
    requires DecodeUnits(u) == Some(s) && t == [b] + s
    ensures DecodeUnits(Plain(b, u)) == Some(t)
  {
  }

  lemma HitsText(k: bytes)
    ensures PrintUnits(HITS_UNITS, k) == [0x68, 0x69, 0x74, 0x73, QUOTE] + k
  {
    var s := Plain(0x73, Close);
    var t := Plain(0x74, s);
    assert PrintUnits(s, k) == [0x73] + ([QUOTE] + k);
    assert PrintUnits(t, k) == [0x74] + PrintUnits(s, k);
    assert PrintUnits(Plain(0x69, t), k) == [0x69] + PrintUnits(t, k);
  }

  /** `"hits":`. */
  const HITS_TEXT: bytes := [QUOTE, 0x68, 0x69, 0x74, 0x73, QUOTE, COLON]

  lemma HitsMemberText(v: Value, k: bytes)
    ensures PrintMembers(HitsMember(v), k) == HITS_TEXT + Print(v, [RBRACE] + k)
  {
    hide PrintUnits, Print;
    var m := HitsMember(v);
    assert [] + ([RBRACE] + k) == [RBRACE] + k;
    assert AfterKey(m, AfterMember(m, k)) == [COLON] + Print(v, [RBRACE] + k);
    HitsText(AfterKey(m, AfterMember(m, k)));
  }

  /** `[{}]` and what closes the two objects around it. */
  const INNER_TEXT: bytes := [LBRACKET, LBRACE, RBRACE, RBRACKET, RBRACE, RBRACE]

  lemma InnerText()
    ensures Print(Arr(LastItem([], EmptyObj([]), [])), [RBRACE, RBRACE]) == INNER_TEXT
  {
    var items := LastItem([], EmptyObj([]), []);
    var k := AfterItem(items, [RBRACE, RBRACE]);
    assert k == [RBRACKET, RBRACE, RBRACE];
    assert [] + k == k && [] + ([RBRACE] + k) == [RBRACE] + k;
    assert Print(EmptyObj([]), k) == [LBRACE] + ([RBRACE] + k);
  }

  lemma LoneText(k: bytes)
    ensures PrintUnits(LONE, k) == [BACKSLASH, LOWER_U, 0x64, 0x38, 0x30, 0x30, QUOTE] + k
  {
    assert PrintUnits(Close, k) == [QUOTE] + k;
  }

  lemma UnnamedText()
    ensures Text(Unnamed(EmptyObj([]))) ==
            [LBRACE, QUOTE] + ([BACKSLASH, LOWER_U, 0x64, 0x38, 0x30, 0x30, QUOTE]
            + ([COLON] + ([LBRACE, RBRACE] + ([COMMA] + (HITS_TEXT + ([LBRACE] + (HITS_TEXT + INNER_TEXT)))))))
  {
    hide PrintUnits, PrintItems;
    var list := Arr(LastItem([], EmptyObj([]), []));
    var inner := Obj(HitsMember(list));
    var m := Unnamed(EmptyObj([])).members;
    InnerText();
    assert [RBRACE] + [RBRACE] == [RBRACE, RBRACE] && [RBRACE] + [] == [RBRACE];
    HitsMemberText(list, [RBRACE]);
    HitsMemberText(inner, []);
    var rest := [COMMA] + PrintMembers(m.rest, []);
    LoneMember(m, rest);
  }

  lemma LoneMember(m: Members, rest: bytes)
    requires m.Member? && m.(rest := HitsMember(EmptyObj([]))) ==
             Member([], LONE, [], [], EmptyObj([]), [], HitsMember(EmptyObj([])))
    requires rest == [COMMA] + PrintMembers(m.rest, [])
    ensures PrintMembers(m, []) ==
            [QUOTE] + ([BACKSLASH, LOWER_U, 0x64, 0x38, 0x30, 0x30, QUOTE] + ([COLON] + ([LBRACE, RBRACE] + rest)))
  {
    hide PrintUnits;
    assert [] + rest == rest;
    assert [] + ([RBRACE] + rest) == [RBRACE] + rest;
    assert Print(EmptyObj([]), rest) == [LBRACE, RBRACE] + rest;
    assert [] + ([COLON] + ([] + ([LBRACE, RBRACE] + rest))) == [COLON] + ([LBRACE, RBRACE] + rest);
    LoneText([COLON] + ([LBRACE, RBRACE] + rest));
  }

  lemma UnnamedIsRaw()
    ensures var v := Unnamed(EmptyObj([])); Wf(v) && IsRaw(v) && !IsRawObject(v)
  {
    hide Utf8.Valid, Print, KeyOf, LegalUnits, WfUnits;
    LoneIsNoName();
    LoneIsLegal();
    LegalHits();
    UnnamedIsAscii();
  }

  lemma UnnamedIsAscii()
    ensures Utf8.Valid(Text(Unnamed(EmptyObj([]))))
  {
    hide Utf8.Valid, Print;
    UnnamedText();
    Utf8.AsciiIsValid(Text(Unnamed(EmptyObj([]))));
  }

  lemma LoneIsLegal()
    ensures LegalUnits(LONE) && WfUnits(LONE)
  {
  }

  lemma LegalHits()
    ensures LegalUnits(HITS_UNITS) && WfUnits(HITS_UNITS)
  {
    var s := Plain(0x73, Close);
    var t := Plain(0x74, s);
    assert LegalUnits(s) && WfUnits(s);
    assert LegalUnits(t) && WfUnits(t);
    assert LegalUnits(Plain(0x69, t)) && WfUnits(Plain(0x69, t));
  }
}
