/**
  What the wrapped query means: read back independently, and matched against documents
  under any semantics of OpenSearch's `bool` and `term` queries.
*/
module QueryMeaning {
  import opened Bytes
  import opened JsonText
  import opened JsonString
  import opened JsonRaw
  import opened JsonValue
  import opened Fields
  import opened Query
  import Utf8

  /** The elements of an array. */
  function Elements(v: Value): Option<seq<Value>> {
    match v
    case EmptyArr(_) => Some([])
    case Arr(items) => Some(ItemValues(items))
    case _ => None
  }

  /** The one member of an object that has a single name. */
  function Only(v: Value, name: bytes): Option<Value> {
    if IsNamedObject(v) && TopMap(v).Keys == {name} then Some(TopMap(v)[name]) else None
  }

  datatype BoolQuery = BoolQuery(must: seq<Value>, filter: seq<Value>)

  /** Reads `{"bool":{"must":[…],"filter":[…]}}`, whatever its layout. */
  function ReadBool(q: Value): Option<BoolQuery> {
    var b :- Only(q, BOOL);
    if IsNamedObject(b) && TopMap(b).Keys == {MUST, FILTER} then
      var must :- Elements(TopMap(b)[MUST]);
      var filter :- Elements(TopMap(b)[FILTER]);
      Some(BoolQuery(must, filter))
    else None
  }

  /** Reads `{"term":{<name>:<value>}}` for a given field. */
  function ReadTerm(q: Value, name: bytes): Option<JV> {
    var t :- Only(q, TERM);
    var v :- Only(t, name);
    if Decodes(v) then Some(Denote(v)) else None
  }

  /** How OpenSearch matches a document of type `D`: a `bool` query matches when all its
      clauses do, a `term` query when the document has the term. Other queries match as
      `sem` says. */
  ghost predicate Semantics<D(!new)>(sem: (Value, D) -> bool, holds: (D, bytes, JV) -> bool) {
    && (forall q, d | ReadBool(q).Some? ::
          sem(q, d) <==> (forall c | c in ReadBool(q).value.must :: sem(c, d))
                         && forall c | c in ReadBool(q).value.filter :: sem(c, d))
    && forall q, name, d | ReadTerm(q, name).Some? :: sem(q, d) <==> holds(d, name, ReadTerm(q, name).value)
  }

  // ---------- there is such a semantics ----------

  function Size(v: Value): nat {
    match v
    case Arr(items) => 1 + ItemsSize(items)
    case Obj(members) => 1 + MembersSize(members)
    case _ => 0
  }

  function ItemsSize(items: Items): nat {
    Size(items.v) + if items.Item? then ItemsSize(items.rest) else 0
  }

  function MembersSize(m: Members): nat {
    Size(m.v) + if m.Member? then MembersSize(m.rest) else 0
  }

  lemma {:induction false} ItemFits(items: Items, c: Value)
    requires c in ItemValues(items)
    ensures Size(c) <= ItemsSize(items)
    decreases items
  {
    hide Size;
    if c != items.v {
      assert items.Item? && c in ItemValues(items.rest);
      ItemFits(items.rest, c);
    }
  }

  lemma {:induction false} MemberFits(m: Members, k: bytes)
    requires NamedMembers(m) && k in TopMembers(m)
    ensures Size(TopMembers(m)[k]) <= MembersSize(m)
    decreases m
  {
    hide Size, KeyOf;
    if m.Member? && k in TopMembers(m.rest) {
      MemberFits(m.rest, k);
    }
  }

  lemma ValueFits(v: Value, k: bytes)
    requires IsNamedObject(v) && k in TopMap(v)
    ensures Size(TopMap(v)[k]) < Size(v)
  {
    hide TopMembers, NamedMembers, MembersSize;
    MemberFits(v.members, k);
  }

  lemma ClauseFits(q: Value, c: Value)
    requires ReadBool(q).Some? && (c in ReadBool(q).value.must || c in ReadBool(q).value.filter)
    ensures Size(c) < Size(q)
  {
    hide Size, IsNamedObject, TopMap;
    var b := TopMap(q)[BOOL];
    ValueFits(q, BOOL);
    ValueFits(b, MUST);
    ValueFits(b, FILTER);
    ElementFits(TopMap(b)[if c in ReadBool(q).value.must then MUST else FILTER], c);
  }

  lemma ElementFits(v: Value, c: Value)
    requires Elements(v).Some? && c in Elements(v).value
    ensures Size(c) < Size(v)
  {
    ItemFits(v.items, c);
  }

  /** The meaning `bool` and `term` queries have, the others taken from `other`. */
  ghost predicate Means<D(!new)>(holds: (D, bytes, JV) -> bool, other: (Value, D) -> bool, q: Value, d: D)
    decreases Size(q)
  {
    if ReadBool(q).Some? then
      && (forall c | c in ReadBool(q).value.must :: (ClauseFits(q, c); Means(holds, other, c, d)))
      && (forall c | c in ReadBool(q).value.filter :: (ClauseFits(q, c); Means(holds, other, c, d)))
    else if exists name :: ReadTerm(q, name).Some? then
      var name :| ReadTerm(q, name).Some?;
      holds(d, name, ReadTerm(q, name).value)
    else other(q, d)
  }

  lemma TermReadsOnce(q: Value, a: bytes, b: bytes)
    requires ReadTerm(q, a).Some? && ReadTerm(q, b).Some?
    ensures a == b && ReadBool(q).None?
  {
    hide TopMap, IsNamedObject, Decodes;
    assert |TERM| == |BOOL| == 4 && TERM[0] != BOOL[0];
    assert TERM in {TERM} && a in {a};
  }

  /** `Semantics` can be met: however terms and the other queries match, one reading of
      every query agrees with them. */
  lemma SemanticsExists<D(!new)>(holds: (D, bytes, JV) -> bool, other: (Value, D) -> bool)
      returns (sem: (Value, D) -> bool)
    ensures Semantics(sem, holds)
    ensures forall q, d | ReadBool(q).None? && forall name :: ReadTerm(q, name).None? :: sem(q, d) == other(q, d)
  {
    hide ReadBool, ReadTerm;
    sem := (q, d) => Means(holds, other, q, d);
    forall q, name, d | ReadTerm(q, name).Some?
      ensures sem(q, d) <==> holds(d, name, ReadTerm(q, name).value)
    {
      TermReadsOnce(q, name, name);
      forall b | ReadTerm(q, b).Some?
        ensures b == name
      {
        TermReadsOnce(q, name, b);
      }
    }
  }

  lemma OneMemberReads(name: bytes, v: Value)
    requires Utf8.Valid(name)
    ensures Only(OneMember(name, v), name) == Some(v)
  {
    hide WriteString, Utf8.Valid;
    WriteStringDecodes(name);
  }

  lemma TermReads(fits: Numbers, ser: JV -> Value, f: Field)
    requires IsWriter(fits, ser) && Utf8.Valid(f.name) && WfJV(fits, f.value)
    ensures ReadTerm(TermQuery(ser, f), f.name) == Some(f.value)
  {
    hide IsWriter, Utf8.Valid, Only, OneMember;
    Utf8.AsciiIsValid(TERM);
    OneMemberReads(TERM, OneMember(f.name, ser(f.value)));
    OneMemberReads(f.name, ser(f.value));
    WriterWrites(fits, ser, f.value);
  }

  lemma {:induction false} FilterValues(ser: JV -> Value, filter: seq<Field>)
    requires filter != []
    ensures ItemValues(FilterItems(ser, filter)) ==
            seq(|filter|, i requires 0 <= i < |filter| => TermQuery(ser, filter[i]))
    decreases |filter|
  {
    hide TermQuery;
    if |filter| > 1 {
      FilterValues(ser, filter[1..]);
    }
  }

  function Terms(ser: JV -> Value, filter: seq<Field>): seq<Value> {
    seq(|filter|, i requires 0 <= i < |filter| => TermQuery(ser, filter[i]))
  }

  lemma TwoMembersRead(a: bytes, x: Value, b: bytes, y: Value)
    requires Utf8.Valid(a) && Utf8.Valid(b) && a != b
    ensures var v := Obj(Member([], Key(a), [], [], x, [], LastMember([], Key(b), [], [], y, [])));
            IsNamedObject(v) && TopMap(v).Keys == {a, b} && TopMap(v)[a] == x && TopMap(v)[b] == y
  {
    hide WriteString, Utf8.Valid, KeyOf;
    WriteStringDecodes(a);
    WriteStringDecodes(b);
    var last := LastMember([], Key(b), [], [], y, []);
    assert NamedMembers(last) && TopMembers(last) == map[b := y];
    var m := Member([], Key(a), [], [], x, [], last);
    assert NamedMembers(m) && TopMembers(m) == map[a := x] + map[b := y];
  }

  lemma FilteredReads(ser: JV -> Value, client: Option<Value>, filter: seq<Field>)
    ensures ReadBool(FilteredQuery(ser, client, filter)) ==
            Some(BoolQuery(if client.Some? then [client.value] else [], Terms(ser, filter)))
  {
    hide Utf8.Valid, IsNamedObject, TopMap, TermQuery, Only, OneMember;
    Utf8.AsciiIsValid(BOOL);
    Utf8.AsciiIsValid(MUST);
    Utf8.AsciiIsValid(FILTER);
    assert |MUST| == 4 && |FILTER| == 6;
    var must, terms := MustClause(client), FilterClause(ser, filter);
    var b := Obj(Member([], Key(MUST), [], [], must, [], LastMember([], Key(FILTER), [], [], terms, [])));
    OneMemberReads(BOOL, b);
    TwoMembersRead(MUST, must, FILTER, terms);
    if client.Some? {
      assert ItemValues(LastItem([], client.value, [])) == [client.value];
    }
    assert Elements(must) == Some(if client.Some? then [client.value] else []);
    if filter != [] {
      FilterValues(ser, filter);
    }
    assert Elements(terms) == Some(Terms(ser, filter));
    assert Only(FilteredQuery(ser, client, filter), BOOL) == Some(b);
  }

  /** The wrapped body's query matches a document exactly when the client's query does
      (or there is none) and every filter term holds: the filter cannot be escaped. */
  lemma WrappedMatches<D(!new)>(fits: Numbers, sem: (Value, D) -> bool, holds: (D, bytes, JV) -> bool, ser: JV -> Value,
                                top: map<bytes, Value>, filter: seq<Field>, d: D)
    requires Semantics(sem, holds) && IsWriter(fits, ser) && WfFields(fits, filter)
             && WrapTop(fits, ser, Ok(top), filter).Ok?
    ensures var out := WrapTop(fits, ser, Ok(top), filter).value;
            && QUERY in out
            && (sem(out[QUERY], d) <==> (QUERY in top ==> sem(top[QUERY], d))
                                        && forall f | f in filter :: holds(d, f.name, f.value))
    ensures var out := WrapTop(fits, ser, Ok(top), filter).value;
            forall k | k != QUERY :: (k in out <==> k in top) && (k in out ==> out[k] == top[k])
    ensures filter != [] ==> Rejected(fits, top).None?
  {
    hide Rejected, IsWriter, FilteredQuery, TermQuery, ReadBool, ReadTerm, WfJV, Utf8.Valid;
    var client := ClientQuery(top);
    var q := FilteredQuery(ser, client, filter);
    FilteredReads(ser, client, filter);
    var terms := Terms(ser, filter);
    forall f | f in filter
      ensures TermQuery(ser, f) in terms && (sem(TermQuery(ser, f), d) <==> holds(d, f.name, f.value))
    {
      TermReads(fits, ser, f);
      var i :| 0 <= i < |filter| && filter[i] == f;
      assert terms[i] == TermQuery(ser, f);
    }
    forall c | c in terms
      ensures exists f :: f in filter && c == TermQuery(ser, f)
    {
      var i :| 0 <= i < |terms| && terms[i] == c;
      assert filter[i] in filter;
    }
    assert sem(q, d) <==> (forall c | c in ReadBool(q).value.must :: sem(c, d)) && forall c | c in terms :: sem(c, d);
  }
}
