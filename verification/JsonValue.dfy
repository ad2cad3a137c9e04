/**
  JSON values, as `serde_json` sees a text: strings decoded, object members a map
  in which the last of several equal names wins. A number keeps its spelling.
*/
module JsonValue {
  import opened Bytes
  import opened JsonText
  import opened JsonString
  import Utf8

  datatype JV =
    | JLit(w: Word)
    | JNum(n: Number)
    | JStr(s: bytes)
    | JArr(elems: seq<JV>)
    | JObj(fields: map<bytes, JV>)

  /** Every string and member name of the value decodes. */
  predicate Decodes(v: Value) {
    match v
    case Str(u) => KeyOf(u).Some?
    case Arr(items) => ItemsDecode(items)
    case Obj(members) => MembersDecode(members)
    case _ => true
  }

  predicate ItemsDecode(items: Items) {
    Decodes(items.v) && (items.Item? ==> ItemsDecode(items.rest))
  }

  predicate MembersDecode(m: Members) {
    KeyOf(m.key).Some? && Decodes(m.v) && (m.Member? ==> MembersDecode(m.rest))
  }

  /** The numbers a parser takes. Those of the grammar whose value is too large for a
      double are refused, for one: `1e999`. */
  type Numbers = Number -> bool

  predicate NumbersFit(fits: Numbers, v: Value) {
    match v
    case Num(n) => fits(n)
    case Arr(items) => ItemsFit(fits, items)
    case Obj(members) => MembersFit(fits, members)
    case _ => true
  }

  predicate ItemsFit(fits: Numbers, items: Items) {
    NumbersFit(fits, items.v) && (items.Item? ==> ItemsFit(fits, items.rest))
  }

  predicate MembersFit(fits: Numbers, m: Members) {
    NumbersFit(fits, m.v) && (m.Member? ==> MembersFit(fits, m.rest))
  }

  /** What `serde_json` parses into a tree. The skipping scanner takes every well-formed
      value. */
  predicate Strict(fits: Numbers, v: Value) {
    Decodes(v) && NumbersFit(fits, v)
  }

  predicate StrictItems(fits: Numbers, items: Items) {
    ItemsDecode(items) && ItemsFit(fits, items)
  }

  predicate StrictMembers(fits: Numbers, m: Members) {
    MembersDecode(m) && MembersFit(fits, m)
  }

  function Denote(v: Value): JV
    requires Decodes(v)
  {
    match v
    case Lit(w) => JLit(w)
    case Num(n) => JNum(n)
    case Str(u) => JStr(KeyOf(u).value)
    case EmptyArr(_) => JArr([])
    case Arr(items) => JArr(DenoteItems(items))
    case EmptyObj(_) => JObj(map[])
    case Obj(members) => JObj(DenoteMembers(members))
  }

  function DenoteItems(items: Items): seq<JV>
    requires ItemsDecode(items)
  {
    [Denote(items.v)] + (if items.Item? then DenoteItems(items.rest) else [])
  }

  function DenoteMembers(m: Members): map<bytes, JV>
    requires MembersDecode(m)
  {
    var first := map[KeyOf(m.key).value := Denote(m.v)];
    if m.Member? then first + DenoteMembers(m.rest) else first
  }

  // ---------- writing ----------

  function LowerHex(n: nat): byte
    requires n < 16
  {
    if n < 10 then 0x30 + n else 0x61 + (n - 10)
  }

  /** How `serde_json` writes a string: short escapes where RFC 8259 has one, `\u00xx`
      for the other control bytes, everything else as it is. */
  function WriteString(s: bytes): Units {
    if s == [] then Close
    else
      var rest := WriteString(s[1..]);
      var b := s[0];
      if b == QUOTE || b == BACKSLASH then Escape(b, rest)
      else if b == 0x08 then Escape(0x62, rest)
      else if b == 0x09 then Escape(0x74, rest)
      else if b == 0x0A then Escape(0x6E, rest)
      else if b == 0x0C then Escape(0x66, rest)
      else if b == 0x0D then Escape(0x72, rest)
      else if b < 0x20 then Unicode(ZERO, ZERO, LowerHex(b / 16), LowerHex(b % 16), rest)
      else Plain(b, rest)
  }

  /** How each byte of a string is written. */
  lemma WrittenByte(b: byte, s: bytes, k: bytes)
    ensures PrintUnits(WriteString([b] + s), k) ==
            (if b == 0x22 || b == 0x5C then [0x5C, b]
             else if b == 0x08 then Ascii("\\b")
             else if b == 0x09 then Ascii("\\t")
             else if b == 0x0A then Ascii("\\n")
             else if b == 0x0C then Ascii("\\f")
             else if b == 0x0D then Ascii("\\r")
             else if b < 0x20 then
               Ascii("\\u00") + [Ascii("0123456789abcdef")[b / 16], Ascii("0123456789abcdef")[b % 16]]
             else [b]) + PrintUnits(WriteString(s), k)
  {
    assert ([b] + s)[1..] == s && ([b] + s)[0] == b;
    assert Ascii("\\u00") == [BACKSLASH, LOWER_U, ZERO, ZERO];
  }

  lemma HexOfLower(n: nat)
    requires n < 16
    ensures HexVal(LowerHex(n)) == Some(n)
  {
  }

  lemma ControlByteDecodes(b: byte)
    requires b < 0x20
    ensures Hex4(ZERO, ZERO, LowerHex(b / 16), LowerHex(b % 16)) == Some(b)
    ensures HexVal(ZERO).Some? && HexVal(LowerHex(b / 16)).Some? && HexVal(LowerHex(b % 16)).Some?
    ensures Utf8.Encode(b) == [b]
  {
    HexOfLower(b / 16);
    HexOfLower(b % 16);
  }

  /** Writing a string and decoding it is the identity. */
  lemma {:induction false} WriteStringDecodes(s: bytes)
    ensures WfUnits(WriteString(s)) && DecodeUnits(WriteString(s)) == Some(s)
    ensures Utf8.Valid(s) ==> KeyOf(WriteString(s)) == Some(s)
  {
    hide Hex4, HexVal, LowerHex, Utf8.Encode, Utf8.Valid;
    if s != [] {
      WriteStringDecodes(s[1..]);
      var b := s[0];
      assert [b] + s[1..] == s;
      if b < 0x20 {
        ControlByteDecodes(b);
      }
    }
  }

  /** What a value must satisfy to have a text at all. */
  predicate WfJV(fits: Numbers, j: JV) {
    match j
    case JLit(_) => true
    case JNum(n) => WfNumber(n) && fits(n)
    case JStr(s) => Utf8.Valid(s)
    case JArr(elems) => forall e | e in elems :: WfJV(fits, e)
    case JObj(fields) => forall k | k in fields :: Utf8.Valid(k) && WfJV(fits, fields[k])
  }

  /** `ser` writes every value as a text that reads back as that value. */
  ghost predicate IsWriter(fits: Numbers, ser: JV -> Value) {
    forall j | WfJV(fits, j) :: Writes(fits, ser, j)
  }

  predicate Writes(fits: Numbers, ser: JV -> Value, j: JV) {
    Wf(ser(j)) && Strict(fits, ser(j)) && Denote(ser(j)) == j
  }

  lemma {:induction false} DenoteIsWf(fits: Numbers, v: Value)
    requires Wf(v) && Strict(fits, v)
    ensures WfJV(fits, Denote(v))
    decreases v
  {
    match v
    case Arr(items) => DenoteItemsIsWf(fits, items);
    case Obj(members) => DenoteMembersIsWf(fits, members);
    case _ =>
  }

  lemma {:induction false} DenoteItemsIsWf(fits: Numbers, items: Items)
    requires WfItems(items) && StrictItems(fits, items)
    ensures forall e | e in DenoteItems(items) :: WfJV(fits, e)
    decreases items
  {
    DenoteIsWf(fits, items.v);
    if items.Item? {
      DenoteItemsIsWf(fits, items.rest);
    }
  }

  lemma {:induction false} DenoteMembersIsWf(fits: Numbers, m: Members)
    requires WfMembers(m) && StrictMembers(fits, m)
    ensures var fields := DenoteMembers(m); forall k | k in fields :: Utf8.Valid(k) && WfJV(fits, fields[k])
    decreases m
  {
    DenoteIsWf(fits, m.v);
    if m.Member? {
      DenoteMembersIsWf(fits, m.rest);
    }
  }

  // ---------- a writer exists ----------

  ghost function WriteValue(j: JV): Value
    decreases j, 1, 0
  {
    match j
    case JLit(w) => Lit(w)
    case JNum(n) => Num(n)
    case JStr(s) => Str(WriteString(s))
    case JArr(elems) => if elems == [] then EmptyArr([]) else Arr(WriteItems(j, 0))
    case JObj(fields) => if fields == map[] then EmptyObj([]) else Obj(WriteMembers(j, fields.Keys))
  }

  ghost function WriteItems(j: JV, i: nat): Items
    requires j.JArr? && i < |j.elems|
    decreases j, 0, |j.elems| - i
  {
    if i + 1 == |j.elems| then LastItem([], WriteValue(j.elems[i]), [])
    else Item([], WriteValue(j.elems[i]), [], WriteItems(j, i + 1))
  }

  ghost function AnyOf(keys: set<bytes>): (k: bytes)
    requires keys != {}
    ensures k in keys
  {
    var k :| k in keys; k
  }

  /** The members named in `keys`, in some order. */
  ghost function WriteMembers(j: JV, keys: set<bytes>): Members
    requires j.JObj? && keys != {} && keys <= j.fields.Keys
    decreases j, 0, |keys|
  {
    var k := AnyOf(keys);
    if keys == {k} then LastMember([], WriteString(k), [], [], WriteValue(j.fields[k]), [])
    else Member([], WriteString(k), [], [], WriteValue(j.fields[k]), [], WriteMembers(j, keys - {k}))
  }

  lemma {:induction false} WriteValueWrites(fits: Numbers, j: JV)
    requires WfJV(fits, j)
    ensures Wf(WriteValue(j)) && Strict(fits, WriteValue(j)) && Denote(WriteValue(j)) == j
    decreases j, 1, 0
  {
    match j
    case JLit(_) =>
    case JNum(_) =>
    case JStr(s) => WriteStringDecodes(s);
    case JArr(elems) =>
      if elems != [] {
        WriteItemsWrites(fits, j, 0);
      }
    case JObj(fields) =>
      if fields != map[] {
        WriteMembersWrites(fits, j, fields.Keys);
        assert (map k | k in fields.Keys :: fields[k]) == fields;
      }
  }

  lemma {:induction false} WriteItemsWrites(fits: Numbers, j: JV, i: nat)
    requires j.JArr? && i < |j.elems| && WfJV(fits, j)
    ensures var items := WriteItems(j, i);
            WfItems(items) && StrictItems(fits, items) && DenoteItems(items) == j.elems[i..]
    decreases j, 0, |j.elems| - i
  {
    assert j.elems[i] in j.elems;
    WriteValueWrites(fits, j.elems[i]);
    if i + 1 < |j.elems| {
      WriteItemsWrites(fits, j, i + 1);
    }
    assert j.elems[i..] == [j.elems[i]] + j.elems[i + 1..];
  }

  lemma {:induction false} WriteMembersWrites(fits: Numbers, j: JV, keys: set<bytes>)
    requires j.JObj? && keys != {} && keys <= j.fields.Keys && WfJV(fits, j)
    ensures var m := WriteMembers(j, keys);
            WfMembers(m) && StrictMembers(fits, m) && DenoteMembers(m) == map k | k in keys :: j.fields[k]
    decreases j, 0, |keys|
  {
    var k := AnyOf(keys);
    WriteStringDecodes(k);
    WriteValueWrites(fits, j.fields[k]);
    if keys == {k} {
      assert map[k := j.fields[k]] == map x | x in keys :: j.fields[x];
    } else {
      WriteMembersWrites(fits, j, keys - {k});
      RejoinKey(j.fields, keys, k);
    }
  }

  lemma RejoinKey(fields: map<bytes, JV>, keys: set<bytes>, k: bytes)
    requires k in keys && keys <= fields.Keys
    ensures map[k := fields[k]] + (map x | x in keys - {k} :: fields[x]) == map x | x in keys :: fields[x]
  {
  }

  /** A writer as `serde_json` promises one does exist. */
  lemma WriterExists(fits: Numbers)
    ensures exists ser :: IsWriter(fits, ser)
  {
    forall j | WfJV(fits, j)
      ensures Writes(fits, WriteValue, j)
    {
      WriteValueWrites(fits, j);
    }
    assert IsWriter(fits, WriteValue);
  }
}
