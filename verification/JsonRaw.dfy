/**
  `serde_json`'s raw values: parsing the top level of a body only, and keeping each
  member's value as the span it is written in.
*/
module JsonRaw {
  import opened Bytes
  import opened JsonText
  import opened JsonString
  import JsonSound
  import JsonUnique
  import Utf8

  /** Escapes `serde_json` accepts when it only skips over a string. */
  predicate LegalUnits(u: Units) {
    match u
    case Close => true
    case Plain(_, rest) => LegalUnits(rest)
    case Escape(c, rest) => ShortEscape(c).Some? && LegalUnits(rest)
    case Unicode(_, _, _, _, rest) => LegalUnits(rest)
  }

  predicate Legal(v: Value) {
    match v
    case Str(u) => LegalUnits(u)
    case Arr(items) => LegalItems(items)
    case Obj(members) => LegalMembers(members)
    case _ => true
  }

  predicate LegalItems(items: Items) {
    Legal(items.v) && (items.Item? ==> LegalItems(items.rest))
  }

  predicate LegalMembers(m: Members) {
    LegalUnits(m.key) && Legal(m.v) && (m.Member? ==> LegalMembers(m.rest))
  }

  /** A value that can be kept as its raw span. */
  predicate IsRaw(v: Value) {
    Wf(v) && Legal(v) && Utf8.Valid(Text(v))
  }

  predicate RawMembers(m: Members) {
    KeyOf(m.key).Some? && IsRaw(m.v) && (m.Member? ==> RawMembers(m.rest))
  }

  /** An object each of whose members has a name that decodes and a raw value. */
  predicate IsRawObject(v: Value) {
    v.EmptyObj? || (v.Obj? && RawMembers(v.members))
  }

  predicate NamedMembers(m: Members) {
    KeyOf(m.key).Some? && (m.Member? ==> NamedMembers(m.rest))
  }

  predicate IsNamedObject(v: Value) {
    v.EmptyObj? || (v.Obj? && NamedMembers(v.members))
  }

  lemma {:induction false} RawIsNamed(m: Members)
    requires RawMembers(m)
    ensures NamedMembers(m) && forall k | k in TopMembers(m) :: IsRaw(TopMembers(m)[k]) && Utf8.Valid(k)
    decreases m
  {
    hide IsRaw;
    if m.Member? {
      RawIsNamed(m.rest);
    }
  }

  /** The members by name, the last of several equal names counting. */
  function TopMembers(m: Members): map<bytes, Value>
    requires NamedMembers(m)
  {
    var first := map[KeyOf(m.key).value := m.v];
    if m.Member? then first + TopMembers(m.rest) else first
  }

  function TopMap(v: Value): map<bytes, Value>
    requires IsNamedObject(v)
  {
    if v.EmptyObj? then map[] else TopMembers(v.members)
  }

  lemma RawTop(v: Value)
    requires IsRawObject(v)
    ensures IsNamedObject(v) && forall k | k in TopMap(v) :: IsRaw(TopMap(v)[k]) && Utf8.Valid(k)
  {
    if v.Obj? {
      RawIsNamed(v.members);
    }
  }

  ghost predicate ReadsTop(body: bytes, v: Value) {
    IsRawObject(v) && exists pre, post :: JsonSound.DocumentOf(body, pre, v, post)
  }

  ghost predicate ReadsRaw(body: bytes) {
    exists pre, v, post :: JsonSound.DocumentOf(body, pre, v, post) && IsRaw(v)
  }

  ghost function TopReading(body: bytes): (r: Option<Value>)
    ensures r.Some? ==> ReadsTop(body, r.value)
    ensures r.None? ==> forall v :: !ReadsTop(body, v)
  {
    if exists v :: ReadsTop(body, v) then
      var v :| ReadsTop(body, v);
      Some(v)
    else None
  }

  /** A body has one reading, as an object of raw members and as a raw value. */
  lemma OneReading(body: bytes, pre: bytes, v: Value, post: bytes)
    requires JsonSound.DocumentOf(body, pre, v, post)
    ensures TopReading(body) == if IsRawObject(v) then Some(v) else None
    ensures ReadsRaw(body) <==> IsRaw(v)
  {
    hide IsRawObject, IsRaw, JsonSound.DocumentOf;
    forall pre', v', post' | JsonSound.DocumentOf(body, pre', v', post')
      ensures v' == v
    {
      JsonUnique.DocumentUnique(body, pre, v, post, pre', v', post');
    }
    if IsRawObject(v) {
      assert ReadsTop(body, v);
    }
  }
}
