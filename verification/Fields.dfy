/**
  Tenancy fields: injected into a document on ingest, stripped from it on read.
  `InjectFieldsBytes` splices them into the raw bytes behind the opening brace;
  `Document.Inject` edits the parsed tree. `SpliceCommutes` says the two agree.
*/
module Fields {
  import opened Bytes
  import opened JsonText
  import opened JsonString
  import opened JsonTop
  import opened JsonValue
  import opened ReadShaping
  import JsonParse
  import JsonParser
  import JsonSound
  import Utf8

  datatype Field = Field(name: bytes, value: JV)

  datatype RewriteError = NotAnObject | InvalidJson | ReservedFieldCollision(field: bytes)

  type Rewritten<+T> = Result<T, RewriteError>

  predicate WfFields(fits: Numbers, fields: seq<Field>) {
    forall f | f in fields :: Utf8.Valid(f.name) && WfJV(fits, f.value)
  }

  // ---------- on the tree ----------

  function KeySet(keys: seq<bytes>): set<bytes> {
    set k | k in keys
  }

  /** The first injected name already taken. */
  function FirstCollision(taken: set<bytes>, fields: seq<Field>): (r: Option<bytes>)
    ensures r.None? <==> forall f | f in fields :: f.name !in taken
  {
    if fields == [] then None
    else if fields[0].name in taken then Some(fields[0].name)
    else FirstCollision(taken, fields[1..])
  }

  predicate FirstAt(taken: set<bytes>, fields: seq<Field>, name: bytes, i: int) {
    0 <= i < |fields| && fields[i].name == name && name in taken && forall j | 0 <= j < i :: fields[j].name !in taken
  }

  /** `name` is that of the first field whose name is taken. */
  predicate FirstTaken(taken: set<bytes>, fields: seq<Field>, name: bytes) {
    exists i :: 0 <= i < |fields| && FirstAt(taken, fields, name, i)
  }

  lemma {:induction false} CollisionAt(taken: set<bytes>, fields: seq<Field>) returns (i: nat)
    requires FirstCollision(taken, fields).Some?
    ensures FirstAt(taken, fields, FirstCollision(taken, fields).value, i)
    decreases |fields|
  {
    i := 0;
    if fields[0].name !in taken {
      i := CollisionAt(taken, fields[1..]);
      assert forall j | 0 < j <= i :: fields[j] == fields[1..][j - 1];
      i := i + 1;
    }
  }

  lemma OneFirst(taken: set<bytes>, fields: seq<Field>, a: bytes, i: nat, b: bytes, k: nat)
    requires FirstAt(taken, fields, a, i) && FirstAt(taken, fields, b, k)
    ensures a == b
  {
  }

  lemma CollisionIsFirst(taken: set<bytes>, fields: seq<Field>, name: bytes)
    ensures FirstCollision(taken, fields) == Some(name) <==> FirstTaken(taken, fields, name)
  {
    if FirstCollision(taken, fields).Some? {
      var i := CollisionAt(taken, fields);
      if FirstTaken(taken, fields, name) {
        var k :| 0 <= k < |fields| && FirstAt(taken, fields, name, k);
        OneFirst(taken, fields, FirstCollision(taken, fields).value, i, name, k);
      }
    }
  }

  /** The fields as members; the last of several equal names wins. */
  function FieldMap(fields: seq<Field>): map<bytes, JV> {
    if fields == [] then map[] else map[fields[0].name := fields[0].value] + FieldMap(fields[1..])
  }

  /** All or nothing: the document with the fields added, or the reason why not. */
  function InjectTree(doc: JV, fields: seq<Field>): Rewritten<JV> {
    if !doc.JObj? then Err(RewriteError.NotAnObject)
    else
      match FirstCollision(doc.fields.Keys, fields)
      case Some(name) => Err(ReservedFieldCollision(name))
      case None => Ok(JObj(doc.fields + FieldMap(fields)))
  }

  function Names(fields: seq<Field>): seq<bytes> {
    seq(|fields|, i requires 0 <= i < |fields| => fields[i].name)
  }

  lemma {:induction false} FieldMapKeys(fields: seq<Field>)
    ensures FieldMap(fields).Keys == set n | n in Names(fields)
    decreases |fields|
  {
    if fields != [] {
      FieldMapKeys(fields[1..]);
      assert Names(fields) == [fields[0].name] + Names(fields[1..]);
    }
  }

  lemma NoneTaken(taken: set<bytes>, fields: seq<Field>)
    requires FirstCollision(taken, fields).None?
    ensures forall n | n in Names(fields) :: n !in taken
  {
    forall n | n in Names(fields)
      ensures n !in taken
    {
      var i :| 0 <= i < |fields| && n == Names(fields)[i];
      assert fields[i] in fields;
    }
  }

  /** Stripping undoes injecting: nothing of the document is lost or left behind. */
  lemma InjectThenStrip(doc: JV, fields: seq<Field>)
    requires InjectTree(doc, fields).Ok?
    ensures StripFields(InjectTree(doc, fields).value, Names(fields)) == doc
  {
    FieldMapKeys(fields);
    NoneTaken(doc.fields.Keys, fields);
    var names := set n | n in Names(fields);
    assert (doc.fields + FieldMap(fields)) - names == doc.fields;
  }

  const DOC: bytes := [0x64, 0x6F, 0x63]
  const UPSERT: bytes := [0x75, 0x70, 0x73, 0x65, 0x72, 0x74]

  /** An object with the fields injected into its sub-document `key`, if it has one. */
  function InjectSub(doc: JV, key: bytes, fields: seq<Field>): Rewritten<JV> {
    if !doc.JObj? then Err(RewriteError.NotAnObject)
    else if key !in doc.fields then Ok(doc)
    else
      match InjectTree(doc.fields[key], fields)
      case Err(e) => Err(e)
      case Ok(sub) => Ok(JObj(doc.fields[key := sub]))
  }

  /** An update body after its two sub-documents, and what is reported. When the second
      is refused the first has already been stamped. */
  function InjectUpdateTree(doc: JV, fields: seq<Field>): (JV, Rewritten<()>) {
    match InjectSub(doc, DOC, fields)
    case Err(e) => (doc, Err(e))
    case Ok(stamped) =>
      match InjectSub(stamped, UPSERT, fields)
      case Err(e) => (stamped, Err(e))
      case Ok(both) => (both, Ok(()))
  }

  /** A refused update is left as it was exactly when its `doc` was refused or absent, or
      there was nothing to inject. */
  lemma RefusedUpdateUntouchedIff(doc: JV, fields: seq<Field>)
    requires InjectUpdateTree(doc, fields).1.Err?
    ensures InjectUpdateTree(doc, fields).0 == doc <==>
            !doc.JObj? || DOC !in doc.fields || InjectTree(doc.fields[DOC], fields).Err? || fields == []
  {
    if doc.JObj? && DOC in doc.fields && InjectTree(doc.fields[DOC], fields).Ok? {
      var sub := doc.fields[DOC];
      var after := InjectTree(sub, fields).value;
      if fields == [] {
        assert sub.fields + map[] == sub.fields;
        assert doc.fields[DOC := sub] == doc.fields;
      } else {
        FieldMapKeys(fields);
        NoneTaken(sub.fields.Keys, fields);
        assert fields[0].name in Names(fields) by { assert Names(fields)[0] == fields[0].name; }
        assert fields[0].name in after.fields && fields[0].name !in sub.fields;
        assert doc.fields[DOC := after][DOC] != doc.fields[DOC];
      }
    }
  }

  predicate Collides(j: JV, fields: seq<Field>) {
    j.JObj? && exists f :: f in fields && f.name in j.fields
  }

  /** A sub-document that can be stamped, or is not there. */
  predicate Stampable(doc: JV, key: bytes, fields: seq<Field>) {
    doc.JObj? && (key in doc.fields ==> doc.fields[key].JObj? && !Collides(doc.fields[key], fields))
  }

  /** `after` is `before` with every field set to the last value given for it. */
  predicate StampedWith(before: JV, after: JV, fields: seq<Field>) {
    && before.JObj? && after.JObj?
    && after.fields.Keys == before.fields.Keys + (set f | f in fields :: f.name)
    && (forall k | k in before.fields :: after.fields[k] == before.fields[k])
    && forall i | 0 <= i < |fields| && (forall j | i < j < |fields| :: fields[j].name != fields[i].name) ::
         after.fields[fields[i].name] == fields[i].value
  }

  lemma {:induction false} LastValueCounts(fields: seq<Field>, i: nat)
    requires i < |fields| && forall j | i < j < |fields| :: fields[j].name != fields[i].name
    ensures fields[i].name in FieldMap(fields) && FieldMap(fields)[fields[i].name] == fields[i].value
    decreases |fields|
  {
    if i > 0 {
      LastValueCounts(fields[1..], i - 1);
    } else {
      FieldMapKeys(fields[1..]);
    }
  }

  /** What an injection does to a document, and when it is refused. */
  lemma InjectedIsStamped(doc: JV, fields: seq<Field>)
    ensures InjectTree(doc, fields).Ok? <==> doc.JObj? && !Collides(doc, fields)
    ensures InjectTree(doc, fields).Ok? ==> StampedWith(doc, InjectTree(doc, fields).value, fields)
    ensures InjectTree(doc, fields) == Err(RewriteError.NotAnObject) <==> !doc.JObj?
    ensures forall name :: InjectTree(doc, fields) == Err(ReservedFieldCollision(name)) <==>
                             doc.JObj? && FirstTaken(doc.fields.Keys, fields, name)
  {
    forall name: bytes
      ensures InjectTree(doc, fields) == Err(ReservedFieldCollision(name)) <==>
              doc.JObj? && FirstTaken(doc.fields.Keys, fields, name)
    {
      if doc.JObj? {
        CollisionIsFirst(doc.fields.Keys, fields, name);
      }
      hide FirstTaken;
    }
    if InjectTree(doc, fields).Ok? {
      FieldMapKeys(fields);
      NoneTaken(doc.fields.Keys, fields);
      NamesAre(fields);
      forall i | 0 <= i < |fields| && (forall j | i < j < |fields| :: fields[j].name != fields[i].name)
        ensures InjectTree(doc, fields).value.fields[fields[i].name] == fields[i].value
      {
        LastValueCounts(fields, i);
      }
    }
  }

  lemma NamesAre(fields: seq<Field>)
    ensures (set n | n in Names(fields)) == (set f | f in fields :: f.name)
  {
    forall f | f in fields
      ensures f.name in Names(fields)
    {
      var i :| 0 <= i < |fields| && fields[i] == f;
      assert Names(fields)[i] == f.name;
    }
    forall n | n in Names(fields)
      ensures exists f :: f in fields && f.name == n
    {
      var i :| 0 <= i < |fields| && Names(fields)[i] == n;
      assert fields[i] in fields;
    }
  }

  /** `after` is `before` with its sub-document `key` stamped, if it has one. */
  predicate SubStamped(before: JV, after: JV, key: bytes, fields: seq<Field>) {
    && before.JObj? && after.JObj?
    && (key in before.fields <==> key in after.fields)
    && (key in before.fields ==> StampedWith(before.fields[key], after.fields[key], fields))
  }

  lemma InjectedSub(doc: JV, key: bytes, fields: seq<Field>)
    ensures InjectSub(doc, key, fields).Ok? <==> Stampable(doc, key, fields)
    ensures doc.JObj? && !Stampable(doc, key, fields) ==>
              InjectTree(doc.fields[key], fields).Err?
              && InjectSub(doc, key, fields) == Err(InjectTree(doc.fields[key], fields).error)
    ensures InjectSub(doc, key, fields).Ok? ==>
              var r := InjectSub(doc, key, fields).value;
              SubStamped(doc, r, key, fields) && r.fields.Keys == doc.fields.Keys
              && forall k | k in doc.fields && k != key :: r.fields[k] == doc.fields[k]
  {
    hide StampedWith, InjectTree;
    if doc.JObj? && key in doc.fields {
      InjectedIsStamped(doc.fields[key], fields);
    }
  }

  /** An update is accepted exactly when it is an object and each of its `doc` and
      `upsert` that is there can be stamped. Both are then stamped, nothing else is
      touched, and stripping the two gives the update back. */
  lemma AcceptedUpdate(doc: JV, fields: seq<Field>)
    ensures InjectUpdateTree(doc, fields).1.Ok? <==> Stampable(doc, DOC, fields) && Stampable(doc, UPSERT, fields)
    ensures InjectUpdateTree(doc, fields).1.Ok? ==>
              var r := InjectUpdateTree(doc, fields).0;
              && SubStamped(doc, r, DOC, fields) && SubStamped(doc, r, UPSERT, fields)
              && r.fields.Keys == doc.fields.Keys
              && forall k | k in doc.fields && k != DOC && k != UPSERT :: r.fields[k] == doc.fields[k]
    ensures InjectUpdateTree(doc, fields).1.Ok? ==>
              StripSub(StripSub(InjectUpdateTree(doc, fields).0, DOC, Names(fields)), UPSERT, Names(fields)) == doc
  {
    hide StampedWith, InjectSub;
    assert |DOC| == 3 && |UPSERT| == 6;
    InjectedSub(doc, DOC, fields);
    if InjectSub(doc, DOC, fields).Ok? {
      var stamped := InjectSub(doc, DOC, fields).value;
      InjectedSub(stamped, UPSERT, fields);
      if InjectSub(stamped, UPSERT, fields).Ok? {
        var both := InjectSub(stamped, UPSERT, fields).value;
        StrippedBack(doc, both, DOC, fields);
        StrippedBack(doc, both, UPSERT, fields);
        var s := StripSub(both, DOC, Names(fields));
        assert StripSub(s, UPSERT, Names(fields)).fields == doc.fields;
      }
    }
  }

  /** A refused update names the fault of its `doc`, or of its `upsert` when the `doc` can
      be stamped. */
  lemma RefusedUpdateReason(doc: JV, fields: seq<Field>)
    ensures !doc.JObj? ==> InjectUpdateTree(doc, fields).1 == Err(RewriteError.NotAnObject)
    ensures doc.JObj? && !Stampable(doc, DOC, fields) ==>
              InjectUpdateTree(doc, fields).1 == Err(InjectTree(doc.fields[DOC], fields).error)
    ensures doc.JObj? && Stampable(doc, DOC, fields) && !Stampable(doc, UPSERT, fields) ==>
              InjectUpdateTree(doc, fields).1 == Err(InjectTree(doc.fields[UPSERT], fields).error)
  {
    hide StampedWith, InjectTree;
    assert |DOC| == 3 && |UPSERT| == 6;
    InjectedSub(doc, DOC, fields);
    if doc.JObj? && DOC in doc.fields {
      InjectedIsStamped(doc.fields[DOC], fields);
    }
    if doc.JObj? && UPSERT in doc.fields {
      InjectedIsStamped(doc.fields[UPSERT], fields);
    }
  }

  /** The fields taken out of the sub-document `key` again. */
  function StripSub(doc: JV, key: bytes, names: seq<bytes>): JV {
    if doc.JObj? && key in doc.fields then JObj(doc.fields[key := StripFields(doc.fields[key], names)]) else doc
  }

  lemma StrippedBack(before: JV, after: JV, key: bytes, fields: seq<Field>)
    requires Stampable(before, key, fields) && SubStamped(before, after, key, fields)
    ensures key in before.fields ==> StripFields(after.fields[key], Names(fields)) == before.fields[key]
  {
    if key in before.fields {
      var a, b := before.fields[key], after.fields[key];
      NamesAre(fields);
      assert b.fields - (set n | n in Names(fields)) == a.fields;
    }
  }

  /** A parsed document, edited in place. */
  class Document {
    var value: JV

    constructor (v: JV)
      ensures value == v
    {
      value := v;
    }

    method Inject(fields: seq<Field>) returns (r: Rewritten<()>)
      modifies this
      ensures match InjectTree(old(value), fields)
              case Ok(j) => r == Ok(()) && value == j
              case Err(e) => r == Err(e) && value == old(value)
    {
      if !value.JObj? {
        return Err(RewriteError.NotAnObject);
      }
      for i := 0 to |fields|
        invariant value == old(value)
        invariant FirstCollision(value.fields.Keys, fields) == FirstCollision(value.fields.Keys, fields[i..])
      {
        if fields[i].name in value.fields {
          return Err(ReservedFieldCollision(fields[i].name));
        }
        assert fields[i..][1..] == fields[i + 1..];
      }
      assert fields[0..] == fields;
      for i := 0 to |fields|
        invariant value.JObj?
        invariant value.fields + FieldMap(fields[i..]) == old(value).fields + FieldMap(fields)
      {
        InsertNext(value.fields, fields, i);
        value := JObj(value.fields[fields[i].name := fields[i].value]);
      }
      assert fields[0..] == fields && fields[|fields|..] == [];
      KeepAll(value.fields);
      r := Ok(());
    }

    /** Stamps the fields into the sub-document `key`, if there is one. */
    method InjectInto(key: bytes, fields: seq<Field>) returns (r: Rewritten<()>)
      requires value.JObj?
      modifies this
      ensures match InjectSub(old(value), key, fields)
              case Ok(j) => r == Ok(()) && value == j && value.JObj?
              case Err(e) => r == Err(e) && value == old(value)
    {
      if key !in value.fields {
        return Ok(());
      }
      var sub := new Document(value.fields[key]);
      r := sub.Inject(fields);
      if r.Ok? {
        value := JObj(value.fields[key := sub.value]);
      }
    }

    method InjectUpdate(fields: seq<Field>) returns (r: Rewritten<()>)
      modifies this
      ensures (value, r) == InjectUpdateTree(old(value), fields)
    {
      hide InjectTree;
      if !value.JObj? {
        return Err(RewriteError.NotAnObject);
      }
      r := InjectInto(DOC, fields);
      if r.Err? {
        return;
      }
      r := InjectInto(UPSERT, fields);
    }

    /** Removes each named field; `n` counts the ones that were there. */
    method Strip(names: seq<bytes>) returns (n: nat)
      modifies this
      ensures value == StripFields(old(value), names)
      ensures n == if old(value).JObj? then |old(value).fields| - |value.fields| else 0
    {
      n := 0;
      if !value.JObj? {
        return;
      }
      for i := 0 to |names|
        invariant value.JObj? && value.fields == Without(old(value).fields, names, i)
        invariant n == |old(value).fields| - |value.fields|
      {
        RemoveNext(old(value).fields, names, i);
        if names[i] in value.fields {
          n := n + 1;
        }
        value := JObj(value.fields - {names[i]});
      }
      assert names[..|names|] == names;
    }
  }

  lemma InsertNext(m: map<bytes, JV>, fields: seq<Field>, i: nat)
    requires i < |fields|
    ensures m[fields[i].name := fields[i].value] + FieldMap(fields[i + 1..]) == m + FieldMap(fields[i..])
  {
    assert fields[i..][1..] == fields[i + 1..];
  }

  lemma KeepAll(m: map<bytes, JV>)
    ensures m + map[] == m
  {
  }

  /** The members left once the first `i` names are gone. */
  function Without(m: map<bytes, JV>, names: seq<bytes>, i: nat): map<bytes, JV>
    requires i <= |names|
  {
    m - KeySet(names[..i])
  }

  lemma RemoveNext(m: map<bytes, JV>, names: seq<bytes>, i: nat)
    requires i < |names|
    ensures Without(m, names, i + 1) == Without(m, names, i) - {names[i]}
    ensures |Without(m, names, i + 1)| == |Without(m, names, i)| - if names[i] in Without(m, names, i) then 1 else 0
  {
    var n := names[i];
    var s := KeySet(names[..i]);
    assert names[..i + 1] == names[..i] + [n];
    assert KeySet(names[..i + 1]) == s + {n};
    RemoveOne(m - s, n);
    RemoveTwice(m, s, n);
  }

  lemma RemoveTwice(m: map<bytes, JV>, s: set<bytes>, n: bytes)
    ensures m - (s + {n}) == (m - s) - {n}
  {
  }

  lemma RemoveOne(a: map<bytes, JV>, n: bytes)
    ensures |a - {n}| == |a| - if n in a then 1 else 0
  {
    var b := a - {n};
    assert |a| == |a.Keys| && |b| == |b.Keys|;
    if n in a {
      assert a.Keys == b.Keys + {n};
    } else {
      assert a.Keys == b.Keys;
    }
  }

  // ---------- on the bytes ----------

  function FieldText(ser: JV -> Value, f: Field): bytes {
    [QUOTE] + PrintUnits(WriteString(f.name), []) + [COLON] + Text(ser(f.value))
  }

  function InjectedText(ser: JV -> Value, fields: seq<Field>): bytes {
    if fields == [] then []
    else if |fields| == 1 then FieldText(ser, fields[0])
    else FieldText(ser, fields[0]) + ([COMMA] + InjectedText(ser, fields[1..]))
  }

  /** What the splice returns. */
  function Spliced(ser: JV -> Value, body: bytes, fields: seq<Field>): Rewritten<bytes> {
    match TopLevelOf(body)
    case NotAnObject => Err(RewriteError.NotAnObject)
    case Invalid => Err(InvalidJson)
    case Located(top) =>
      if fields == [] then Ok(body)
      else
        match FirstCollision(KeySet(top.keys), fields)
        case Some(name) => Err(ReservedFieldCollision(name))
        case None =>
          if top.insertAt <= |body| then
            Ok(body[..top.insertAt] + InjectedText(ser, fields) + (if top.empty then [] else [COMMA]) +
               body[top.insertAt..])
          else Err(InvalidJson)
  }

  lemma LocatedInside(body: bytes)
    requires TopLevelOf(body).Located?
    ensures TopLevelOf(body).top.insertAt <= |body|
  {
    hide ScanObject;
  }

  /** Splices the fields into the object in `body` without parsing it into a tree. */
  method InjectFieldsBytes(ser: JV -> Value, body: bytes, fields: seq<Field>) returns (r: Rewritten<bytes>)
    ensures r == Spliced(ser, body, fields)
  {
    hide TopLevelOf, FieldText;
    var located := JsonParser.ObjectTopLevel(body);
    if located.NotAnObject? {
      return Err(RewriteError.NotAnObject);
    } else if located.Invalid? {
      return Err(InvalidJson);
    }
    var top := located.top;
    if fields == [] {
      return Ok(body);
    }
    LocatedInside(body);
    ghost var taken := KeySet(top.keys);
    for i := 0 to |fields|
      invariant FirstCollision(taken, fields) == FirstCollision(taken, fields[i..])
    {
      if fields[i].name in top.keys {
        return Err(ReservedFieldCollision(fields[i].name));
      }
      assert fields[i..][1..] == fields[i + 1..];
    }
    var injected: bytes := [];
    for i := 0 to |fields|
      invariant InjectedText(ser, fields) == injected + Remaining(ser, fields, i)
    {
      ghost var was := injected;
      if i > 0 {
        injected := injected + [COMMA];
      }
      injected := injected + FieldText(ser, fields[i]);
      RemainingStep(ser, fields, i, was);
    }
    assert injected + [] == injected;
    var out := body[..top.insertAt] + injected;
    if !top.empty {
      out := out + [COMMA];
    }
    r := Ok(out + body[top.insertAt..]);
    assert out == body[..top.insertAt] + injected + (if top.empty then [] else [COMMA]);
  }

  /** What is still to be written after the first `i` fields. */
  function Remaining(ser: JV -> Value, fields: seq<Field>, i: nat): bytes
    requires i <= |fields|
  {
    if i == |fields| then []
    else (if i > 0 then [COMMA] else []) + InjectedText(ser, fields[i..])
  }

  lemma RemainingStep(ser: JV -> Value, fields: seq<Field>, i: nat, written: bytes)
    requires i < |fields|
    ensures written + Remaining(ser, fields, i) ==
            (if i > 0 then written + [COMMA] else written) + FieldText(ser, fields[i]) + Remaining(ser, fields, i + 1)
  {
    hide FieldText;
    assert fields[i..][1..] == fields[i + 1..];
    var sep: bytes := if i > 0 then [COMMA] else [];
    var t := FieldText(ser, fields[i]);
    var rest := Remaining(ser, fields, i + 1);
    assert InjectedText(ser, fields[i..]) == t + rest by {
      assert t + [] == t;
    }
    assert written + [] == written;
    assert written + (sep + (t + rest)) == (written + sep) + t + rest;
  }

  // ---------- the spliced document as a tree ----------

  /** The fields as members in front of `tail`, or as all there is. */
  function FieldMembers(ser: JV -> Value, fields: seq<Field>, tail: Option<Members>, ws: bytes): Members
    requires fields != []
  {
    var key, v := WriteString(fields[0].name), ser(fields[0].value);
    if |fields| > 1 then Member([], key, [], [], v, [], FieldMembers(ser, fields[1..], tail, ws))
    else match tail
      case None => LastMember([], key, [], [], v, ws)
      case Some(m) => Member([], key, [], [], v, [], m)
  }

  function SplicedValue(ser: JV -> Value, fields: seq<Field>, v: Value): Value
    requires IsObject(v)
  {
    if fields == [] then v
    else if v.EmptyObj? then Obj(FieldMembers(ser, fields, None, v.ws))
    else Obj(FieldMembers(ser, fields, Some(v.members), []))
  }

  /** What follows the spliced fields. */
  function TailText(tail: Option<Members>, ws: bytes, k: bytes): bytes {
    match tail
    case None => ws + ([RBRACE] + k)
    case Some(m) => [COMMA] + PrintMembers(m, k)
  }

  lemma MemberText(ser: JV -> Value, f: Field, post: bytes, t: bytes)
    ensures [] + ([QUOTE] + PrintUnits(WriteString(f.name), [] + ([COLON] + ([] + Print(ser(f.value), post + t)))))
            == FieldText(ser, f) + (post + t)
  {
    var key, v := WriteString(f.name), ser(f.value);
    PrintAppends(v, post + t);
    var rest := [COLON] + Print(v, post + t);
    assert [] + ([COLON] + ([] + Print(v, post + t))) == rest;
    PrintUnitsAppends(key, rest);
    assert rest == [COLON] + Text(v) + (post + t);
  }

  lemma FieldMembersUnfold(ser: JV -> Value, m: Members, f: Field, t: bytes, k: bytes)
    requires m.pre == [] && m.mid == [] && m.vpre == [] && m.key == WriteString(f.name) && m.v == ser(f.value)
    requires t == AfterMember(m, k)
    ensures PrintMembers(m, k) == FieldText(ser, f) + (m.post + t)
  {
    hide FieldText;
    MemberText(ser, f, m.post, t);
  }

  lemma {:induction false} FieldMembersText(ser: JV -> Value, fields: seq<Field>, tail: Option<Members>, ws: bytes,
                                            k: bytes)
    requires fields != []
    ensures PrintMembers(FieldMembers(ser, fields, tail, ws), k) == InjectedText(ser, fields) + TailText(tail, ws, k)
    decreases |fields|
  {
    hide FieldText, PrintMembers, TailText;
    var m := FieldMembers(ser, fields, tail, ws);
    var t := AfterMember(m, k);
    FieldMembersUnfold(ser, m, fields[0], t, k);
    if |fields| > 1 {
      FieldMembersText(ser, fields[1..], tail, ws, k);
      var a, b, c := FieldText(ser, fields[0]), InjectedText(ser, fields[1..]), TailText(tail, ws, k);
      assert t == [COMMA] + (b + c);
      assert a + ([] + ([COMMA] + (b + c))) == (a + ([COMMA] + b)) + c;
    } else {
      LastTail(m, tail, ws, k);
    }
  }

  lemma LastTail(m: Members, tail: Option<Members>, ws: bytes, k: bytes)
    requires if tail.None? then m.LastMember? && m.post == ws else m.Member? && m.post == [] && m.rest == tail.value
    ensures m.post + AfterMember(m, k) == TailText(tail, ws, k)
  {
    hide PrintMembers;
  }

  lemma {:induction false} FieldMembersDenote(fits: Numbers, ser: JV -> Value, fields: seq<Field>,
                                              tail: Option<Members>, ws: bytes)
    requires IsWriter(fits, ser) && WfFields(fits, fields) && fields != [] && AllWs(ws)
    requires tail.Some? ==> WfMembers(tail.value) && StrictMembers(fits, tail.value)
    ensures var m := FieldMembers(ser, fields, tail, ws);
            WfMembers(m) && StrictMembers(fits, m)
            && DenoteMembers(m) == FieldMap(fields) + (if tail.None? then map[] else DenoteMembers(tail.value))
    decreases |fields|
  {
    hide IsWriter, WriteString, Utf8.Valid, KeyOf, WfUnits, Wf, Decodes, NumbersFit, Denote;
    var f := fields[0];
    assert f in fields;
    WriteStringDecodes(f.name);
    WriterWrites(fits, ser, f.value);
    var m := FieldMembers(ser, fields, tail, ws);
    var rest: map<bytes, JV> := if tail.None? then map[] else DenoteMembers(tail.value);
    assert map[f.name := f.value] + FieldMap(fields[1..]) == FieldMap(fields);
    if |fields| > 1 {
      assert forall g | g in fields[1..] :: g in fields;
      FieldMembersDenote(fits, ser, fields[1..], tail, ws);
      MergeThree(map[f.name := f.value], FieldMap(fields[1..]), rest);
    } else {
      assert FieldMap(fields[1..]) == map[];
      KeepAll(map[f.name := f.value]);
    }
  }

  lemma MergeThree(a: map<bytes, JV>, b: map<bytes, JV>, c: map<bytes, JV>)
    ensures a + (b + c) == (a + b) + c
  {
  }

  lemma WriterWrites(fits: Numbers, ser: JV -> Value, j: JV)
    requires IsWriter(fits, ser) && WfJV(fits, j)
    ensures Writes(fits, ser, j)
  {
  }

  /** The spliced bytes are a document: the same one, with the fields in front. */
  lemma SplicedDocument(ser: JV -> Value, body: bytes, pre: bytes, v: Value, post: bytes, fields: seq<Field>)
    requires JsonSound.DocumentOf(body, pre, v, post) && IsObject(v) && fields != []
    ensures |pre| + 1 <= |body|
    ensures body[..|pre| + 1] + InjectedText(ser, fields) + (if v.EmptyObj? then [] else [COMMA]) + body[|pre| + 1..]
            == pre + Print(SplicedValue(ser, fields, v), post)
  {
    hide InjectedText, FieldMembers, PrintMembers;
    var inj := InjectedText(ser, fields);
    if v.EmptyObj? {
      var rest := v.ws + ([RBRACE] + post);
      FieldMembersText(ser, fields, None, v.ws, post);
      SpliceBytes(body, pre, inj, [], rest);
      assert [] + rest == rest;
    } else {
      FieldMembersText(ser, fields, Some(v.members), [], post);
      SpliceBytes(body, pre, inj, [COMMA], PrintMembers(v.members, post));
    }
  }

  lemma SpliceBytes(body: bytes, pre: bytes, inj: bytes, sep: bytes, rest: bytes)
    requires body == pre + ([LBRACE] + rest)
    ensures |pre| + 1 <= |body|
    ensures body[..|pre| + 1] + inj + sep + body[|pre| + 1..] == pre + ([LBRACE] + (inj + (sep + rest)))
  {
    assert body[..|pre| + 1] == pre + [LBRACE] && body[|pre| + 1..] == rest;
  }

  lemma {:induction false} MemberKeysAreFields(m: Members)
    requires MembersDecode(m)
    ensures MemberKeys(m).Some? && KeySet(MemberKeys(m).value) == DenoteMembers(m).Keys
    decreases m
  {
    hide KeyOf;
    if m.Member? {
      MemberKeysAreFields(m.rest);
    }
  }

  lemma KeysAreFields(v: Value)
    requires Decodes(v) && IsObject(v)
    ensures ObjectKeys(v).Some? && Denote(v).JObj? && KeySet(ObjectKeys(v).value) == Denote(v).fields.Keys
  {
    if v.Obj? {
      MemberKeysAreFields(v.members);
    }
  }

  /** Splicing then parsing is parsing then injecting. On every document `serde_json`
      accepts the byte form fails exactly as the tree form does, with the same error
      (a key written with escapes collides too); otherwise its bytes are a document
      with the same surrounding whitespace that denotes the injected tree. */
  lemma SpliceCommutes(fits: Numbers, ser: JV -> Value, body: bytes, pre: bytes, v: Value, post: bytes,
                       fields: seq<Field>) returns (r: Value)
    requires JsonSound.DocumentOf(body, pre, v, post) && Strict(fits, v) && IsWriter(fits, ser)
             && WfFields(fits, fields)
    ensures match InjectTree(Denote(v), fields)
            case Err(e) => Spliced(ser, body, fields) == Err(e)
            case Ok(j) =>
              Spliced(ser, body, fields).Ok?
              && JsonSound.DocumentOf(Spliced(ser, body, fields).value, pre, r, post)
              && Strict(fits, r) && Denote(r) == j
  {
    hide TopLevelOf, InjectedText, IsWriter, WfFields, FieldMembers;
    r := v;
    TopLevelOfDocument(body, pre, v, post);
    if IsObject(v) {
      KeysAreFields(v);
      if FirstCollision(Denote(v).fields.Keys, fields).None? {
        if fields != [] {
          r := SplicedValue(ser, fields, v);
          SplicedDocument(ser, body, pre, v, post, fields);
          SplicedDenotes(fits, ser, v, fields);
        } else {
          assert Denote(v).fields + map[] == Denote(v).fields;
        }
      }
    } else {
      NonObjectDenotes(v);
    }
  }

  lemma NonObjectDenotes(v: Value)
    requires Decodes(v) && !IsObject(v)
    ensures !Denote(v).JObj?
  {
  }

  lemma Commute(a: map<bytes, JV>, b: map<bytes, JV>)
    requires a.Keys !! b.Keys
    ensures a + b == b + a
  {
  }

  lemma SplicedDenotes(fits: Numbers, ser: JV -> Value, v: Value, fields: seq<Field>)
    requires Wf(v) && Strict(fits, v) && IsObject(v) && IsWriter(fits, ser) && WfFields(fits, fields) && fields != []
    requires FirstCollision(Denote(v).fields.Keys, fields).None?
    ensures var r := SplicedValue(ser, fields, v);
            Wf(r) && Strict(fits, r) && Denote(r) == JObj(Denote(v).fields + FieldMap(fields))
  {
    hide IsWriter, FieldMembers, Utf8.Valid;
    FieldMapKeys(fields);
    var a, b := Denote(v).fields, FieldMap(fields);
    NoneTaken(a.Keys, fields);
    Commute(b, a);
    KeepAll(b);
    if v.EmptyObj? {
      FieldMembersDenote(fits, ser, fields, None, v.ws);
    } else {
      FieldMembersDenote(fits, ser, fields, Some(v.members), []);
    }
  }

  /** The splice, for every document: what it refuses and why, the body verbatim when
      there is nothing to inject, and otherwise the text of the spliced tree. */
  lemma SplicedIs(ser: JV -> Value, body: bytes, pre: bytes, v: Value, post: bytes, fields: seq<Field>)
    requires JsonSound.DocumentOf(body, pre, v, post)
    ensures !IsObject(v) ==> Spliced(ser, body, fields) == Err(RewriteError.NotAnObject)
    ensures IsObject(v) && ObjectKeys(v).None? ==> Spliced(ser, body, fields) == Err(InvalidJson)
    ensures IsObject(v) && ObjectKeys(v).Some? && fields == [] ==> Spliced(ser, body, fields) == Ok(body)
    ensures IsObject(v) && ObjectKeys(v).Some? ==>
              forall name | FirstTaken(KeySet(ObjectKeys(v).value), fields, name) ::
                Spliced(ser, body, fields) == Err(ReservedFieldCollision(name))
    ensures IsObject(v) && ObjectKeys(v).Some? && (forall f | f in fields :: f.name !in ObjectKeys(v).value) ==>
              Spliced(ser, body, fields) == Ok(pre + Print(SplicedValue(ser, fields, v), post))
  {
    hide TopLevelOf, InjectedText, SplicedValue, ObjectKeys, Print, FirstTaken, FirstCollision, Wf;
    TopLevelOfDocument(body, pre, v, post);
    if IsObject(v) && ObjectKeys(v).Some? {
      var taken := KeySet(ObjectKeys(v).value);
      forall name | FirstTaken(taken, fields, name)
        ensures fields != [] && FirstCollision(taken, fields) == Some(name)
      {
        CollisionIsFirst(taken, fields, name);
        TakenIsSome(taken, fields, name);
      }
      if fields != [] {
        SplicedDocument(ser, body, pre, v, post, fields);
      } else {
        assert SplicedValue(ser, fields, v) == v by { NothingSpliced(ser, v); }
      }
    }
  }

  lemma TakenIsSome(taken: set<bytes>, fields: seq<Field>, name: bytes)
    requires FirstTaken(taken, fields, name)
    ensures fields != []
  {
  }

  lemma NothingSpliced(ser: JV -> Value, v: Value)
    requires IsObject(v)
    ensures SplicedValue(ser, [], v) == v
  {
  }

  // ---------- where the byte form is more lenient ----------

  /** Parsing first, then injecting into the tree. */
  ghost function ParseThenInject(fits: Numbers, body: bytes, fields: seq<Field>): Rewritten<JV> {
    match JsonParse.Parse(fits, body)
    case None => Err(InvalidJson)
    case Some(j) => InjectTree(j, fields)
  }

  function Verdict<T>(r: Rewritten<T>): Option<RewriteError> {
    if r.Ok? then None else Some(r.error)
  }

  /** The two forms give the same verdict on a document exactly when every string in it
      decodes and every number fits, or it is an object one of whose own member names
      does not decode: the byte form looks at nothing below the top level, and at no
      number's value. */
  lemma SameVerdictIffStrict(fits: Numbers, ser: JV -> Value, body: bytes, pre: bytes, v: Value, post: bytes,
                             fields: seq<Field>)
    requires JsonSound.DocumentOf(body, pre, v, post) && IsWriter(fits, ser) && WfFields(fits, fields)
    ensures Verdict(Spliced(ser, body, fields)) == Verdict(ParseThenInject(fits, body, fields))
            <==> Strict(fits, v) || (IsObject(v) && ObjectKeys(v).None?)
  {
    hide IsWriter, WfFields, TopLevelOf, JsonParse.Parse, InjectTree;
    JsonParse.ParseOf(fits, body, pre, v, post);
    TopLevelOfDocument(body, pre, v, post);
    if Strict(fits, v) {
      var r := SpliceCommutes(fits, ser, body, pre, v, post, fields);
    } else if IsObject(v) && ObjectKeys(v).Some? {
      LocatedInside(body);
    }
  }

  /** A body that is no document at all is refused by both. */
  lemma MalformedIsRefused(fits: Numbers, ser: JV -> Value, body: bytes, fields: seq<Field>)
    requires !JsonSound.IsDocument(body)
    ensures Spliced(ser, body, fields) == Err(InvalidJson) && ParseThenInject(fits, body, fields) == Err(InvalidJson)
  {
    hide TopLevelOf, JsonParse.Parse;
    JsonParse.ParseOfOther(fits, body);
    if TopLevelOf(body).Located? {
      TopLevelIffObject(body, TopLevelOf(body).top);
    } else {
      TopLevelIffObject(body, TopLevel(0, true, []));
    }
  }

  /** For instance `{"a":"\q"}`, whose string value uses an escape RFC 8259 does not
      have: it is spliced, but does not parse. */
  const LENIENT := Obj(LastMember([], Plain(0x61, Close), [], [], Str(Escape(0x71, Close)), []))

  lemma LenientIsSpliced(fits: Numbers, ser: JV -> Value, fields: seq<Field>)
    requires IsWriter(fits, ser) && WfFields(fits, fields) && forall f | f in fields :: f.name != [0x61]
    ensures Text(LENIENT) == [0x7B, 0x22, 0x61, 0x22, 0x3A, 0x22, 0x5C, 0x71, 0x22, 0x7D]
    ensures Spliced(ser, Text(LENIENT), fields).Ok? && ParseThenInject(fits, Text(LENIENT), fields) == Err(InvalidJson)
  {
    hide IsWriter, WfFields, TopLevelOf, JsonParse.Parse, InjectTree, InjectedText;
    LenientReading();
    var body := Text(LENIENT);
    TopLevelOfDocument(body, [], LENIENT, []);
    LocatedInside(body);
    JsonParse.ParseOf(fits, body, [], LENIENT, []);
  }

  lemma LenientReading()
    ensures Text(LENIENT) == [0x7B, 0x22, 0x61, 0x22, 0x3A, 0x22, 0x5C, 0x71, 0x22, 0x7D]
    ensures JsonSound.DocumentOf(Text(LENIENT), [], LENIENT, [])
    ensures ObjectKeys(LENIENT) == Some([[0x61]]) && !Decodes(LENIENT)
  {
    LenientKeys();
    LenientText();
    assert [] + Text(LENIENT) == Text(LENIENT);
  }

  lemma LenientText()
    ensures Text(LENIENT) == [0x7B, 0x22, 0x61, 0x22, 0x3A, 0x22, 0x5C, 0x71, 0x22, 0x7D]
  {
    var m := LENIENT.members;
    assert AfterMember(m, []) == [0x7D];
    assert PrintUnits(Close, [0x7D]) == [0x22, 0x7D];
    var value := PrintUnits(Escape(0x71, Close), [0x7D]);
    assert value == [0x5C, 0x71] + [0x22, 0x7D];
    assert [] + [0x7D] == [0x7D];
    assert Print(m.v, [0x7D]) == [0x22] + value;
    var after := AfterKey(m, [0x7D]);
    assert after == [0x3A, 0x22, 0x5C, 0x71, 0x22, 0x7D];
    assert PrintUnits(Close, after) == [0x22] + after;
    assert PrintUnits(m.key, after) == [0x61] + ([0x22] + after);
  }

  lemma LenientKeys()
    ensures ObjectKeys(LENIENT) == Some([[0x61]]) && Wf(LENIENT) && !Decodes(LENIENT)
  {
    LetterKey();
    assert ShortEscape(0x71) == None;
    assert KeyOf(LENIENT.members.v.units) == None;
  }

  lemma LetterKey()
    ensures WfUnits(Plain(0x61, Close)) && KeyOf(Plain(0x61, Close)) == Some([0x61])
  {
    assert [0x61] + [] == [0x61];
    assert WfUnits(Close) && DecodeUnits(Close) == Some([]);
    assert DecodeUnits(Plain(0x61, Close)) == Some([0x61]);
    Utf8.AsciiIsValid([0x61]);
  }

  // ---------- and where it takes a number the parser refuses ----------

  /** `{"a":<n>}`. */
  function OneNumber(n: Number): Value {
    Obj(LastMember([], Plain(0x61, Close), [], [], Num(n), []))
  }

  /** Every number the parser refuses is a second way for the two to part. */
  lemma UnfitIsSpliced(fits: Numbers, ser: JV -> Value, n: Number, fields: seq<Field>)
    requires IsWriter(fits, ser) && WfFields(fits, fields) && forall f | f in fields :: f.name != [0x61]
    requires WfNumber(n) && !fits(n)
    ensures Decodes(OneNumber(n))
    ensures var body := Text(OneNumber(n));
            Spliced(ser, body, fields).Ok? && ParseThenInject(fits, body, fields) == Err(InvalidJson)
  {
    hide IsWriter, WfFields, TopLevelOf, JsonParse.Parse, InjectTree, InjectedText, Print, KeyOf, Wf, ObjectKeys;
    hide Decodes;
    var v := OneNumber(n);
    var body := Text(v);
    OneNumberReading(n);
    assert [] + body == body;
    assert JsonSound.DocumentOf(body, [], v, []);
    TopLevelOfDocument(body, [], v, []);
    LocatedInside(body);
    NoneOf(fields);
    assert !NumbersFit(fits, v.members.v) && !MembersFit(fits, v.members);
    JsonParse.ParseOf(fits, body, [], v, []);
  }

  lemma NoneOf(fields: seq<Field>)
    requires forall f | f in fields :: f.name != [0x61]
    ensures FirstCollision(KeySet([[0x61]]), fields).None?
  {
  }

  lemma OneNumberReading(n: Number)
    requires WfNumber(n)
    ensures var v := OneNumber(n); Wf(v) && Decodes(v) && ObjectKeys(v) == Some([[0x61]])
  {
    hide WfNumber, KeyOf, WfUnits;
    LetterKey();
    var m := OneNumber(n).members;
    assert Wf(m.v) && Decodes(m.v);
    assert WfMembers(m) && MembersDecode(m) && MemberKeys(m) == Some([[0x61]]);
  }

  /** `1e999`. */
  const HUGE := Number(false, [0x31], [], Exp(LOWER_E, [], [0x39, 0x39, 0x39]))

  lemma HugeText()
    ensures WfNumber(HUGE) && Text(OneNumber(HUGE)) ==
            [0x7B, 0x22, 0x61, 0x22, 0x3A, 0x31, 0x65, 0x39, 0x39, 0x39, 0x7D]
  {
    var m := OneNumber(HUGE).members;
    assert AfterMember(m, []) == [0x7D] && [] + [0x7D] == [0x7D];
    assert PrintExp(HUGE.exp, [0x7D]) == [0x65] + ([] + ([0x39, 0x39, 0x39] + [0x7D]));
    assert Print(m.v, [0x7D]) == [0x31, 0x65, 0x39, 0x39, 0x39, 0x7D];
    var after := AfterKey(m, [0x7D]);
    assert after == [0x3A, 0x31, 0x65, 0x39, 0x39, 0x39, 0x7D];
    assert PrintUnits(Close, after) == [0x22] + after;
    assert PrintUnits(m.key, after) == [0x61] + ([0x22] + after);
  }
}
