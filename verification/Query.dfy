/**
  A search body on its way upstream: what the client asked for is put, unchanged, inside
  a query of the proxy's own, beside the terms that hold it to one partition.
*/
module Query {
  import opened Bytes
  import opened JsonText
  import opened JsonString
  import opened JsonTop
  import opened JsonRaw
  import opened JsonValue
  import opened Fields
  import JsonSound
  import Ndjson
  import Utf8

  const QUERY: bytes := [0x71, 0x75, 0x65, 0x72, 0x79]
  const BOOL: bytes := [0x62, 0x6F, 0x6F, 0x6C]
  const MUST: bytes := [0x6D, 0x75, 0x73, 0x74]
  const FILTER: bytes := [0x66, 0x69, 0x6C, 0x74, 0x65, 0x72]
  const TERM: bytes := [0x74, 0x65, 0x72, 0x6D]
  const SUGGEST: bytes := [0x73, 0x75, 0x67, 0x67, 0x65, 0x73, 0x74]
  const AGGS: bytes := [0x61, 0x67, 0x67, 0x73]
  const AGGREGATIONS: bytes := [0x61, 0x67, 0x67, 0x72, 0x65, 0x67, 0x61, 0x74, 0x69, 0x6F, 0x6E, 0x73]
  const GLOBAL: bytes := [0x67, 0x6C, 0x6F, 0x62, 0x61, 0x6C]
  const GLOBAL_AGGREGATION := Ascii("global aggregation")

  datatype QueryError = NotAnObject | InvalidJson | Unfilterable(construct: bytes)

  type Wrapped<+T> = Result<T, QueryError>

  // ---------- the client's body ----------

  /** The body's top-level members, each value left as it is written. */
  ghost function ParseTop(body: bytes): Wrapped<map<bytes, Value>> {
    if Ndjson.Blank(body) then Ok(map[])
    else if TopReading(body).Some? then
      RawTop(TopReading(body).value);
      Ok(TopMap(TopReading(body).value))
    else if ReadsRaw(body) then Err(QueryError.NotAnObject)
    else Err(QueryError.InvalidJson)
  }

  /** A document is its members if it is an object of raw values, and no object if it is
      any other raw value. One that cannot be kept as a raw value is invalid. */
  lemma ParseTopOf(body: bytes, pre: bytes, v: Value, post: bytes)
    requires JsonSound.DocumentOf(body, pre, v, post)
    ensures IsRawObject(v) ==> IsNamedObject(v) && ParseTop(body) == Ok(TopMap(v))
    ensures !IsRawObject(v) && IsRaw(v) ==> ParseTop(body) == Err(QueryError.NotAnObject)
    ensures !IsRawObject(v) && !IsRaw(v) ==> ParseTop(body) == Err(QueryError.InvalidJson)
  {
    hide TopMap, IsRaw, IsRawObject, Ndjson.Blank, Print;
    if IsRawObject(v) {
      RawTop(v);
    }
    OneReading(body, pre, v, post);
    NotBlank(pre, v, post);
  }

  /** A blank body has no members, and any other that is no document is invalid. */
  lemma ParseTopOther(body: bytes)
    requires !JsonSound.IsDocument(body)
    ensures ParseTop(body) == if forall b | b in body :: b in {0x20, 0x09, 0x0A, 0x0C, 0x0D} then Ok(map[])
                              else Err(QueryError.InvalidJson)
  {
    hide TopMap, IsRaw, IsRawObject, JsonSound.DocumentOf;
    Ndjson.SpaceIsBlank(body);
  }

  lemma NotBlank(pre: bytes, v: Value, post: bytes)
    requires Wf(v)
    ensures !Ndjson.Blank(pre + Print(v, post))
  {
    hide Wf, Print;
    StartsDark(v, post);
    var s := pre + Print(v, post);
    assert s[|pre|] == Print(v, post)[0] && s[|pre|] in s;
  }

  lemma StartsDark(v: Value, k: bytes)
    requires Wf(v)
    ensures Print(v, k) != [] && !Ndjson.IsAsciiWhitespace(Print(v, k)[0])
  {
    hide WfUnits, WfItems, WfMembers, PrintUnits, PrintItems, PrintMembers;
    if v.Num? {
      assert v.n.whole[0] in v.n.whole;
      assert Print(v, k)[0] == if v.n.neg then MINUS else v.n.whole[0];
    }
  }

  // ---------- constructs the filter cannot reach ----------

  /** An aggregation named `global` at any depth along `aggs`/`aggregations`. */
  predicate ContainsGlobal(aggs: JV) {
    aggs.JObj? && exists k | k in aggs.fields :: GlobalAgg(aggs.fields[k])
  }

  predicate GlobalAgg(agg: JV) {
    agg.JObj? && (GLOBAL in agg.fields
                  || (AGGS in agg.fields && ContainsGlobal(agg.fields[AGGS]))
                  || (AGGREGATIONS in agg.fields && ContainsGlobal(agg.fields[AGGREGATIONS])))
  }

  /** One level down: into the aggregation `name`, then into its sub-aggregations. */
  datatype Hop = Hop(name: bytes, sub: bytes)

  /** Following the hops leads to an aggregation named `last` that is global. */
  predicate GlobalAt(aggs: JV, hops: seq<Hop>, last: bytes) {
    if hops == [] then aggs.JObj? && last in aggs.fields && aggs.fields[last].JObj?
      && GLOBAL in aggs.fields[last].fields
    else
      var h := hops[0];
      && (h.sub == AGGS || h.sub == AGGREGATIONS)
      && aggs.JObj? && h.name in aggs.fields && aggs.fields[h.name].JObj?
      && h.sub in aggs.fields[h.name].fields
      && GlobalAt(aggs.fields[h.name].fields[h.sub], hops[1..], last)
  }

  lemma {:induction false} GlobalHasPath(aggs: JV) returns (hops: seq<Hop>, last: bytes)
    requires ContainsGlobal(aggs)
    ensures GlobalAt(aggs, hops, last)
    decreases aggs
  {
    var k :| k in aggs.fields && GlobalAgg(aggs.fields[k]);
    var agg := aggs.fields[k];
    if GLOBAL in agg.fields {
      hops, last := [], k;
    } else {
      var sub := if AGGS in agg.fields && ContainsGlobal(agg.fields[AGGS]) then AGGS else AGGREGATIONS;
      var rest;
      rest, last := GlobalHasPath(agg.fields[sub]);
      hops := [Hop(k, sub)] + rest;
      assert hops[1..] == rest;
    }
  }

  lemma {:induction false} PathIsGlobal(aggs: JV, hops: seq<Hop>, last: bytes)
    requires GlobalAt(aggs, hops, last)
    ensures ContainsGlobal(aggs)
    decreases |hops|
  {
    if hops == [] {
      assert GlobalAgg(aggs.fields[last]);
    } else {
      var h := hops[0];
      PathIsGlobal(aggs.fields[h.name].fields[h.sub], hops[1..], last);
      assert GlobalAgg(aggs.fields[h.name]);
    }
  }

  ghost predicate ReachesGlobal(aggs: JV) {
    exists hops, last :: GlobalAt(aggs, hops, last)
  }

  /** The recursive search finds a global aggregation exactly when one can be reached. */
  lemma GlobalIffReachable(aggs: JV)
    ensures ContainsGlobal(aggs) <==> ReachesGlobal(aggs)
  {
    hide ContainsGlobal, GlobalAt;
    if ContainsGlobal(aggs) {
      var hops, last := GlobalHasPath(aggs);
    }
    if ReachesGlobal(aggs) {
      var hops, last :| GlobalAt(aggs, hops, last);
      PathIsGlobal(aggs, hops, last);
    }
  }

  /** `None` when the body may be filtered. An aggregation tree that does not parse is
      refused too. */
  function Rejected(fits: Numbers, top: map<bytes, Value>): Option<QueryError> {
    if SUGGEST in top then Some(Unfilterable(SUGGEST))
    else if AGGS in top && !Strict(fits, top[AGGS]) then Some(QueryError.InvalidJson)
    else if AGGS in top && ContainsGlobal(Denote(top[AGGS])) then Some(Unfilterable(GLOBAL_AGGREGATION))
    else if AGGREGATIONS in top && !Strict(fits, top[AGGREGATIONS]) then Some(QueryError.InvalidJson)
    else if AGGREGATIONS in top && ContainsGlobal(Denote(top[AGGREGATIONS])) then Some(Unfilterable(GLOBAL_AGGREGATION))
    else None
  }

  /** An accepted body has no `suggest`, and no `global` aggregation at any depth. */
  lemma AcceptedIsFilterable(fits: Numbers, top: map<bytes, Value>)
    ensures Rejected(fits, top).None? <==>
            SUGGEST !in top
            && forall key | (key == AGGS || key == AGGREGATIONS) && key in top ::
                 Strict(fits, top[key]) && !ReachesGlobal(Denote(top[key]))
  {
    hide ContainsGlobal, ReachesGlobal, Decodes, NumbersFit, Denote;
    assert |AGGS| == 4 && |AGGREGATIONS| == 12;
    if AGGS in top && Strict(fits, top[AGGS]) {
      GlobalIffReachable(Denote(top[AGGS]));
    }
    if AGGREGATIONS in top && Strict(fits, top[AGGREGATIONS]) {
      GlobalIffReachable(Denote(top[AGGREGATIONS]));
    }
  }

  lemma Names()
    ensures SUGGEST == Ascii("suggest") && AGGS == Ascii("aggs") && AGGREGATIONS == Ascii("aggregations")
    ensures QUERY == Ascii("query") && GLOBAL == Ascii("global")
    ensures BOOL == Ascii("bool") && MUST == Ascii("must") && FILTER == Ascii("filter") && TERM == Ascii("term")
  {
  }

  /** The aggregations under `key` do not parse, or reach past the filter. */
  ghost predicate BadAggs(fits: Numbers, top: map<bytes, Value>, key: bytes) {
    key in top && (Strict(fits, top[key]) ==> ReachesGlobal(Denote(top[key])))
  }

  /** A refusal names what it refuses: `suggest` first, and then the first bad tree of
      `aggs` and `aggregations`, which is not JSON or holds a global aggregation. */
  lemma RejectedNames(fits: Numbers, top: map<bytes, Value>)
    ensures var aggs, more := Ascii("aggs"), Ascii("aggregations");
            Rejected(fits, top) ==
            if Ascii("suggest") in top then Some(Unfilterable(Ascii("suggest")))
            else if !BadAggs(fits, top, aggs) && !BadAggs(fits, top, more) then None
            else if !Strict(fits, top[if BadAggs(fits, top, aggs) then aggs else more])
              then Some(QueryError.InvalidJson)
            else Some(Unfilterable(Ascii("global aggregation")))
  {
    hide ContainsGlobal, ReachesGlobal, Decodes, NumbersFit, Denote, Ascii;
    Names();
    if AGGS in top && Strict(fits, top[AGGS]) {
      GlobalIffReachable(Denote(top[AGGS]));
    }
    if AGGREGATIONS in top && Strict(fits, top[AGGREGATIONS]) {
      GlobalIffReachable(Denote(top[AGGREGATIONS]));
    }
  }

  // ---------- the constructed query ----------

  function Key(s: bytes): Units {
    WriteString(s)
  }

  function OneMember(name: bytes, v: Value): Value {
    Obj(LastMember([], Key(name), [], [], v, []))
  }

  function TermQuery(ser: JV -> Value, f: Field): Value {
    OneMember(TERM, OneMember(f.name, ser(f.value)))
  }

  function FilterItems(ser: JV -> Value, filter: seq<Field>): Items
    requires filter != []
  {
    if |filter| == 1 then LastItem([], TermQuery(ser, filter[0]), [])
    else Item([], TermQuery(ser, filter[0]), [], FilterItems(ser, filter[1..]))
  }

  function MustClause(client: Option<Value>): Value {
    match client
    case None => EmptyArr([])
    case Some(q) => Arr(LastItem([], q, []))
  }

  function FilterClause(ser: JV -> Value, filter: seq<Field>): Value {
    if filter == [] then EmptyArr([]) else Arr(FilterItems(ser, filter))
  }

  function FilteredQuery(ser: JV -> Value, client: Option<Value>, filter: seq<Field>): Value {
    OneMember(BOOL, Obj(Member([], Key(MUST), [], [], MustClause(client), [],
                               LastMember([], Key(FILTER), [], [], FilterClause(ser, filter), []))))
  }

  // ---------- its bytes ----------

  predicate PlainName(s: bytes) {
    forall b | b in s :: !IsStringBoundary(b)
  }

  lemma {:induction false} PlainKey(s: bytes, k: bytes)
    requires PlainName(s)
    ensures PrintUnits(Key(s), k) == s + ([QUOTE] + k)
    decreases |s|
  {
    if s != [] {
      assert s[0] in s && forall b | b in s[1..] :: b in s;
      PlainKey(s[1..], k);
      assert s == [s[0]] + s[1..];
    }
  }

  /** `"name":` */
  function KeyText(s: bytes): bytes {
    [QUOTE] + s + [QUOTE, COLON]
  }

  lemma OneMemberText(name: bytes, v: Value, k: bytes)
    ensures Print(OneMember(name, v), k) ==
            [LBRACE] + ([QUOTE] + PrintUnits(Key(name), [COLON] + Print(v, [RBRACE] + k)))
  {
    hide Print, PrintUnits;
    var m, t := LastMember([], Key(name), [], [], v, []), [RBRACE] + k;
    assert [] + t == t;
    var after := [COLON] + Print(v, t);
    assert AfterKey(m, t) == [] + ([COLON] + ([] + Print(v, [] + t))) == after;
    assert PrintMembers(m, k) == [] + ([QUOTE] + PrintUnits(Key(name), after));
    ObjText(m, k);
  }

  lemma ObjText(m: Members, k: bytes)
    ensures Print(Obj(m), k) == [LBRACE] + PrintMembers(m, k)
  {
  }

  lemma PlainMemberText(name: bytes, v: Value, k: bytes)
    requires PlainName(name)
    ensures Print(OneMember(name, v), k) == [LBRACE] + KeyText(name) + Print(v, [RBRACE] + k)
  {
    hide Print, PrintUnits, Key, OneMember;
    OneMemberText(name, v, k);
    var rest := Print(v, [RBRACE] + k);
    PlainKey(name, [COLON] + rest);
    assert [LBRACE] + ([QUOTE] + (name + ([QUOTE] + ([COLON] + rest)))) == [LBRACE] + KeyText(name) + rest;
  }

  /** `{"term":{<name>:<value>}}` */
  function TermText(ser: JV -> Value, f: Field): bytes {
    [LBRACE] + KeyText(TERM) + ([LBRACE] + FieldText(ser, f) + [RBRACE]) + [RBRACE]
  }

  lemma TermTextIs(ser: JV -> Value, f: Field, k: bytes)
    ensures Print(TermQuery(ser, f), k) == TermText(ser, f) + k
  {
    hide Print, PrintUnits, KeyText, OneMember;
    var inner, v := OneMember(f.name, ser(f.value)), ser(f.value);
    var t := [RBRACE] + k;
    assert PlainName(TERM);
    PlainMemberText(TERM, inner, k);
    OneMemberText(f.name, v, t);
    PrintAppends(v, [RBRACE] + t);
    PrintUnitsAppends(Key(f.name), [COLON] + Print(v, [RBRACE] + t));
    var key, x := PrintUnits(Key(f.name), []), Text(v);
    assert FieldText(ser, f) == [QUOTE] + key + [COLON] + x;
    assert [LBRACE] + ([QUOTE] + (key + ([COLON] + (x + ([RBRACE] + t))))) ==
      ([LBRACE] + ([QUOTE] + key + [COLON] + x) + [RBRACE]) + t;
    TermJoin([LBRACE] + KeyText(TERM), [LBRACE] + FieldText(ser, f) + [RBRACE], k);
  }

  lemma TermJoin(a: bytes, b: bytes, k: bytes)
    ensures a + (b + ([RBRACE] + k)) == (a + b + [RBRACE]) + k
  {
  }

  /** The filter terms, separated by commas. */
  function TermsText(ser: JV -> Value, filter: seq<Field>): bytes {
    if filter == [] then []
    else if |filter| == 1 then TermText(ser, filter[0])
    else TermText(ser, filter[0]) + ([COMMA] + TermsText(ser, filter[1..]))
  }

  lemma {:induction false} FilterItemsText(ser: JV -> Value, filter: seq<Field>, k: bytes)
    requires filter != []
    ensures PrintItems(FilterItems(ser, filter), k) == TermsText(ser, filter) + ([RBRACKET] + k)
    decreases |filter|
  {
    hide TermText, TermQuery;
    var items := FilterItems(ser, filter);
    TermTextIs(ser, filter[0], [] + AfterItem(items, k));
    hide Print;
    var x := TermText(ser, filter[0]);
    NothingAround(x, AfterItem(items, k));
    if |filter| > 1 {
      FilterItemsText(ser, filter[1..], k);
      CommaBetween(x, TermsText(ser, filter[1..]), [RBRACKET] + k);
    }
  }

  lemma NothingAround(x: bytes, k: bytes)
    ensures [] + (x + ([] + k)) == x + k
  {
  }

  lemma CommaBetween(x: bytes, rest: bytes, k: bytes)
    ensures x + ([COMMA] + (rest + k)) == (x + ([COMMA] + rest)) + k
  {
  }

  function MustText(client: Option<Value>): bytes {
    match client
    case None => [LBRACKET, RBRACKET]
    case Some(q) => [LBRACKET] + Text(q) + [RBRACKET]
  }

  /** What `build_filtered_query` assembles. */
  function FilteredText(ser: JV -> Value, client: Option<Value>, filter: seq<Field>): bytes {
    [LBRACE] + KeyText(BOOL) + [LBRACE] + KeyText(MUST) + MustText(client)
    + [COMMA] + KeyText(FILTER) + [LBRACKET] + TermsText(ser, filter) + [RBRACKET, RBRACE, RBRACE]
  }

  lemma MustClauseText(client: Option<Value>, k: bytes)
    ensures Print(MustClause(client), k) == MustText(client) + k
  {
    if client.Some? {
      hide Print;
      var q := client.value;
      var items, t := LastItem([], q, []), [RBRACKET] + k;
      assert [] + t == t;
      PrintAppends(q, t);
      ArrText(items, k);
      assert PrintItems(items, k) == [] + Print(q, [] + t) == Text(q) + t;
      assert [LBRACKET] + (Text(q) + ([RBRACKET] + k)) == ([LBRACKET] + Text(q) + [RBRACKET]) + k;
    } else {
      assert [LBRACKET] + ([] + ([RBRACKET] + k)) == [LBRACKET, RBRACKET] + k;
    }
  }

  lemma ArrText(items: Items, k: bytes)
    ensures Print(Arr(items), k) == [LBRACKET] + PrintItems(items, k)
  {
  }

  lemma FilterClauseText(ser: JV -> Value, filter: seq<Field>, k: bytes)
    ensures Print(FilterClause(ser, filter), k) == [LBRACKET] + TermsText(ser, filter) + [RBRACKET] + k
  {
    if filter != [] {
      hide Print, PrintItems, FilterItems, TermsText;
      FilterItemsText(ser, filter, k);
      ArrText(FilterItems(ser, filter), k);
      Bracket(TermsText(ser, filter), k);
    } else {
      Bracket([], k);
    }
  }

  lemma Bracket(x: bytes, k: bytes)
    ensures [LBRACKET] + (x + ([RBRACKET] + k)) == [LBRACKET] + x + [RBRACKET] + k
  {
  }

  lemma FilteredIsText(ser: JV -> Value, client: Option<Value>, filter: seq<Field>)
    ensures Text(FilteredQuery(ser, client, filter)) == FilteredText(ser, client, filter)
  {
    hide MustClause, FilterClause, TermsText, MustText, Print, PrintMembers, Key, KeyText;
    var last := LastMember([], Key(FILTER), [], [], FilterClause(ser, filter), []);
    var must := MustClause(client);
    var m := Member([], Key(MUST), [], [], must, [], last);
    PlainMemberText(BOOL, Obj(m), []) by { assert PlainName(BOOL); }
    ObjText(m, [RBRACE]);
    LastPlain(FILTER, FilterClause(ser, filter), [RBRACE]) by { assert PlainName(FILTER); }
    FirstPlain(MUST, must, last, [RBRACE]) by { assert PlainName(MUST); }
    FilterClauseText(ser, filter, [RBRACE, RBRACE]);
    var tail := KeyText(FILTER) + ([LBRACKET] + TermsText(ser, filter) + [RBRACKET] + [RBRACE, RBRACE]);
    MustClauseText(client, [COMMA] + tail);
    assert [RBRACE] + [] == [RBRACE];
    assert [RBRACE] + [RBRACE] == [RBRACE, RBRACE];
    assert PrintMembers(last, [RBRACE]) == tail;
    assert PrintMembers(m, [RBRACE]) == KeyText(MUST) + (MustText(client) + ([COMMA] + tail));
    assert Text(FilteredQuery(ser, client, filter)) ==
      [LBRACE] + KeyText(BOOL) + ([LBRACE] + PrintMembers(m, [RBRACE]));
    Flatten([LBRACE] + KeyText(BOOL), KeyText(MUST), MustText(client), KeyText(FILTER), TermsText(ser, filter));
  }

  lemma Flatten(a: bytes, b: bytes, c: bytes, d: bytes, e: bytes)
    ensures a + [LBRACE] + b + c + [COMMA] + d + [LBRACKET] + e + [RBRACKET, RBRACE, RBRACE] ==
            a + ([LBRACE] + (b + (c + ([COMMA] + (d + ([LBRACKET] + e + [RBRACKET] + [RBRACE, RBRACE]))))))
  {
  }

  lemma LastPlain(name: bytes, v: Value, k: bytes)
    requires PlainName(name)
    ensures PrintMembers(LastMember([], Key(name), [], [], v, []), k) == KeyText(name) + Print(v, [RBRACE] + k)
  {
    hide Print, PrintUnits;
    var m, t := LastMember([], Key(name), [], [], v, []), [RBRACE] + k;
    MemberPlain(m, name, k);
    assert [] + t == t;
  }

  lemma FirstPlain(name: bytes, v: Value, rest: Members, k: bytes)
    requires PlainName(name)
    ensures PrintMembers(Member([], Key(name), [], [], v, [], rest), k) ==
            KeyText(name) + Print(v, [COMMA] + PrintMembers(rest, k))
  {
    hide Print, PrintUnits;
    var m, t := Member([], Key(name), [], [], v, [], rest), [COMMA] + PrintMembers(rest, k);
    MemberPlain(m, name, k);
    assert [] + t == t;
  }

  lemma MemberPlain(m: Members, name: bytes, k: bytes)
    requires PlainName(name) && m.pre == [] && m.mid == [] && m.vpre == [] && m.key == Key(name)
    ensures PrintMembers(m, k) == KeyText(name) + Print(m.v, m.post + AfterMember(m, k))
  {
    hide Print, PrintUnits, Key;
    var x := Print(m.v, m.post + AfterMember(m, k));
    PlainKey(name, [COLON] + x);
    assert [] + ([COLON] + ([] + x)) == [COLON] + x;
    assert [] + ([QUOTE] + (name + ([QUOTE] + ([COLON] + x)))) == KeyText(name) + x;
  }

  /** The filtered query's text before its filter terms. */
  function FilteredHead(client: Option<Value>): bytes {
    [LBRACE] + KeyText(BOOL) + [LBRACE] + KeyText(MUST) + MustText(client) + [COMMA] + KeyText(FILTER) + [LBRACKET]
  }

  lemma HeadBytes(client: Option<Value>)
    ensures var head := [LBRACE] + KeyText(BOOL) + [LBRACE] + KeyText(MUST);
            var must := if client.Some? then head + [LBRACKET] + Text(client.value) + [RBRACKET]
              else head + [LBRACKET, RBRACKET];
            must + ([COMMA] + KeyText(FILTER) + [LBRACKET]) == FilteredHead(client)
  {
    hide KeyText, Text;
  }

  lemma FilteredIsHead(ser: JV -> Value, client: Option<Value>, filter: seq<Field>)
    ensures FilteredText(ser, client, filter) ==
            FilteredHead(client) + TermsText(ser, filter) + [RBRACKET, RBRACE, RBRACE]
  {
    hide KeyText, MustText, TermsText;
  }

  /** Assembles the filtered query, the client's own query byte for byte inside it. */
  method BuildFilteredQuery(ser: JV -> Value, client: Option<bytes>, filter: seq<Field>, ghost q: Option<Value>)
    returns (out: bytes)
    requires if client.Some? then q.Some? && client.value == Text(q.value) else q.None?
    ensures out == FilteredText(ser, q, filter)
  {
    hide TermText, TermsText, TermsLeft, KeyText, FilteredHead, FilteredText, Text;
    out := [LBRACE] + KeyText(BOOL) + [LBRACE] + KeyText(MUST);
    match client {
      case Some(raw) =>
        out := out + [LBRACKET];
        out := out + raw;
        out := out + [RBRACKET];
      case None => out := out + [LBRACKET, RBRACKET];
    }
    out := out + ([COMMA] + KeyText(FILTER) + [LBRACKET]);
    HeadBytes(q);
    TermsAll(ser, filter);
    for i := 0 to |filter|
      invariant FilteredHead(q) + TermsText(ser, filter) == out + TermsLeft(ser, filter, i)
    {
      ghost var was := out;
      if i > 0 {
        out := out + [COMMA];
      }
      out := out + TermText(ser, filter[i]);
      TermsStep(ser, filter, i, was);
    }
    assert out + [] == out;
    out := out + [RBRACKET, RBRACE, RBRACE];
    FilteredIsHead(ser, q, filter);
  }

  lemma TermsAll(ser: JV -> Value, filter: seq<Field>)
    ensures TermsLeft(ser, filter, 0) == TermsText(ser, filter) && TermsLeft(ser, filter, |filter|) == []
  {
    assert filter[0..] == filter;
    assert [] + TermsText(ser, filter) == TermsText(ser, filter);
  }

  /** What is still to be written after the first `i` terms. */
  function TermsLeft(ser: JV -> Value, filter: seq<Field>, i: nat): bytes
    requires i <= |filter|
  {
    if i == |filter| then [] else (if i > 0 then [COMMA] else []) + TermsText(ser, filter[i..])
  }

  lemma TermsStep(ser: JV -> Value, filter: seq<Field>, i: nat, written: bytes)
    requires i < |filter|
    ensures written + TermsLeft(ser, filter, i) ==
            (if i > 0 then written + [COMMA] else written) + TermText(ser, filter[i]) + TermsLeft(ser, filter, i + 1)
  {
    hide TermText;
    assert filter[i..][1..] == filter[i + 1..];
    var t, rest := TermText(ser, filter[i]), TermsLeft(ser, filter, i + 1);
    var sep: bytes := if i > 0 then [COMMA] else [];
    assert TermsText(ser, filter[i..]) == t + rest by { assert t + [] == t; }
    assert written + [] == written;
    assert written + (sep + (t + rest)) == (written + sep) + t + rest;
  }

  // ---------- the wrapped body ----------

  predicate RawMap(top: map<bytes, Value>) {
    forall k | k in top :: IsRaw(top[k]) && Utf8.Valid(k)
  }

  lemma ParsedIsRaw(body: bytes)
    requires ParseTop(body).Ok?
    ensures RawMap(ParseTop(body).value)
  {
    hide IsRaw, RawMembers, NamedMembers, TopMembers;
    if !Ndjson.Blank(body) {
      RawTop(TopReading(body).value);
    }
  }

  /** The client's query, if there is one. */
  function ClientQuery(top: map<bytes, Value>): Option<Value> {
    if QUERY in top then Some(top[QUERY]) else None
  }

  /** The members of the wrapped body: the client's, but for the query. */
  function WrapTop(fits: Numbers, ser: JV -> Value, parsed: Wrapped<map<bytes, Value>>,
                   filter: seq<Field>): Wrapped<map<bytes, Value>> {
    match parsed
    case Err(e) => Err(e)
    case Ok(top) =>
      if filter != [] && Rejected(fits, top).Some? then Err(Rejected(fits, top).value)
      else Ok(top[QUERY := FilteredQuery(ser, ClientQuery(top), filter)])
  }

  /** A body is wrapped unless it does not parse, or there is a filter and it holds
      something the filter cannot reach; only the query changes. */
  lemma WrappedIff(fits: Numbers, ser: JV -> Value, parsed: Wrapped<map<bytes, Value>>, filter: seq<Field>)
    ensures var r := WrapTop(fits, ser, parsed, filter);
            && (r.Ok? <==> parsed.Ok? && (filter == [] || Rejected(fits, parsed.value).None?))
            && (parsed.Err? ==> r == Err(parsed.error))
            && (parsed.Ok? && r.Err? ==> Rejected(fits, parsed.value) == Some(r.error))
            && (r.Ok? ==> r.value - {Ascii("query")} == parsed.value - {Ascii("query")} && Ascii("query") in r.value)
  {
    hide Rejected, Ascii, FilteredQuery;
    Names();
  }

  function Entries(keys: seq<bytes>, top: map<bytes, Value>): Members
    requires keys != [] && forall k | k in keys :: k in top
  {
    if |keys| == 1 then LastMember([], Key(keys[0]), [], [], top[keys[0]], [])
    else Member([], Key(keys[0]), [], [], top[keys[0]], [], Entries(keys[1..], top))
  }

  /** The object with these members, in this order. */
  function Tree(keys: seq<bytes>, top: map<bytes, Value>): Value
    requires forall k | k in keys :: k in top
  {
    if keys == [] then EmptyObj([]) else Obj(Entries(keys, top))
  }

  function EntryText(k: bytes, v: Value): bytes {
    [QUOTE] + PrintUnits(Key(k), []) + [COLON] + Text(v)
  }

  function EntriesText(keys: seq<bytes>, top: map<bytes, Value>): bytes
    requires forall k | k in keys :: k in top
  {
    if keys == [] then []
    else EntryText(keys[0], top[keys[0]]) + (if |keys| == 1 then [] else [COMMA] + EntriesText(keys[1..], top))
  }

  lemma EntryIs(m: Members, k: bytes, t: bytes, out: bytes)
    requires m.pre == [] && m.mid == [] && m.vpre == [] && m.post == [] && m.key == Key(k)
    requires t == AfterMember(m, out)
    ensures PrintMembers(m, out) == EntryText(k, m.v) + t
  {
    hide Print, PrintUnits;
    PrintAppends(m.v, t);
    PrintUnitsAppends(Key(k), [COLON] + (Text(m.v) + t));
    assert [] + t == t;
    assert [] + ([COLON] + ([] + (Text(m.v) + t))) == [COLON] + (Text(m.v) + t);
    var key := PrintUnits(Key(k), []);
    assert [] + ([QUOTE] + (key + ([COLON] + (Text(m.v) + t)))) == ([QUOTE] + key + [COLON] + Text(m.v)) + t;
  }

  lemma {:induction false} EntriesAreText(keys: seq<bytes>, top: map<bytes, Value>, out: bytes)
    requires keys != [] && forall k | k in keys :: k in top
    ensures PrintMembers(Entries(keys, top), out) == EntriesText(keys, top) + ([RBRACE] + out)
    decreases |keys|
  {
    hide EntryText, PrintMembers;
    var m := Entries(keys, top);
    EntryIs(m, keys[0], AfterMember(m, out), out);
    var x := EntryText(keys[0], top[keys[0]]);
    if |keys| > 1 {
      EntriesAreText(keys[1..], top, out);
      var rest := EntriesText(keys[1..], top);
      assert x + ([COMMA] + (rest + ([RBRACE] + out))) == (x + ([COMMA] + rest)) + ([RBRACE] + out);
    } else {
      assert x + [] == x;
    }
  }

  predicate Distinct(keys: seq<bytes>) {
    forall i, j | 0 <= i < j < |keys| :: keys[i] != keys[j]
  }

  predicate WfTop(top: map<bytes, Value>) {
    forall k | k in top :: Wf(top[k]) && Utf8.Valid(k)
  }

  /** The members named in `keys`. */
  function Restrict(keys: seq<bytes>, top: map<bytes, Value>): map<bytes, Value>
    requires forall k | k in keys :: k in top
  {
    map k | k in keys :: top[k]
  }

  lemma RestrictStep(keys: seq<bytes>, top: map<bytes, Value>)
    requires keys != [] && (forall k | k in keys :: k in top) && Distinct(keys)
    ensures (forall k | k in keys[1..] :: k in top) && Distinct(keys[1..]) && keys[0] in top
    ensures Restrict(keys, top) == map[keys[0] := top[keys[0]]] + Restrict(keys[1..], top)
  {
    assert keys == [keys[0]] + keys[1..];
  }

  lemma EntryReads(m: Members, k: bytes)
    requires m.pre == [] && m.mid == [] && m.vpre == [] && m.post == [] && m.key == Key(k) && Utf8.Valid(k) && Wf(m.v)
    requires m.Member? ==> WfMembers(m.rest) && NamedMembers(m.rest)
    ensures WfMembers(m) && NamedMembers(m)
    ensures TopMembers(m) == if m.Member? then map[k := m.v] + TopMembers(m.rest) else map[k := m.v]
  {
    hide WriteString, Utf8.Valid, KeyOf, Wf, WfUnits;
    WriteStringDecodes(k);
  }

  lemma {:induction false} EntriesRead(keys: seq<bytes>, top: map<bytes, Value>)
    requires keys != [] && (forall k | k in keys :: k in top) && WfTop(top) && Distinct(keys)
    ensures var m := Entries(keys, top); WfMembers(m) && NamedMembers(m) && TopMembers(m) == Restrict(keys, top)
    decreases |keys|
  {
    hide Key, WfMembers, NamedMembers, TopMembers, Utf8.Valid, Wf, Restrict, Distinct;
    RestrictStep(keys, top);
    if |keys| > 1 {
      EntriesRead(keys[1..], top);
    } else {
      NothingRestricted(keys[1..], top);
      assert map[keys[0] := top[keys[0]]] + map[] == map[keys[0] := top[keys[0]]];
    }
    EntryReads(Entries(keys, top), keys[0]);
  }

  lemma NothingRestricted(keys: seq<bytes>, top: map<bytes, Value>)
    requires keys == []
    ensures Restrict(keys, top) == map[]
  {
  }

  /** The written object reads back as the members it was written from. */
  lemma TreeReads(keys: seq<bytes>, top: map<bytes, Value>)
    requires KeySet(keys) == top.Keys && WfTop(top) && Distinct(keys)
    ensures (forall k | k in keys :: k in top)
    ensures var v := Tree(keys, top); Wf(v) && IsNamedObject(v) && TopMap(v) == top
    ensures Text(Tree(keys, top)) == [LBRACE] + EntriesText(keys, top) + [RBRACE]
  {
    hide Wf, Utf8.Valid;
    hide Entries, EntriesText, TopMembers, NamedMembers, WfTop;
    assert forall k | k in keys :: k in KeySet(keys);
    if keys != [] {
      EntriesRead(keys, top);
      EntriesAreText(keys, top, []);
      assert Restrict(keys, top) == top;
      assert EntriesText(keys, top) + ([RBRACE] + []) == EntriesText(keys, top) + [RBRACE];
      WfObject(Entries(keys, top));
    } else {
      NoEntries(keys, top);
      WfEmptyObject();
    }
  }

  lemma NoEntries(keys: seq<bytes>, top: map<bytes, Value>)
    requires keys == [] && KeySet(keys) == top.Keys
    ensures top == map[] && EntriesText(keys, top) == []
  {
  }

  lemma WfObject(m: Members)
    requires WfMembers(m)
    ensures Wf(Obj(m))
  {
  }

  lemma WfEmptyObject()
    ensures Wf(EmptyObj([]))
  {
  }

  /** The map's keys, in whatever order it yields them. */
  method Enumerate(top: map<bytes, Value>) returns (keys: seq<bytes>)
    ensures KeySet(keys) == top.Keys && Distinct(keys)
  {
    hide KeySet, Distinct;
    keys := [];
    NoKeys();
    var rest := top.Keys;
    while rest != {}
      invariant rest <= top.Keys && KeySet(keys) == top.Keys - rest && Distinct(keys)
      decreases rest
    {
      var k :| k in rest;
      NewKey(keys, k);
      keys := keys + [k];
      rest := rest - {k};
    }
  }

  lemma NoKeys()
    ensures KeySet([]) == {} && Distinct([])
  {
  }

  /** Writes the members out, raw values as they are. */
  method WriteTop(top: map<bytes, Value>) returns (out: bytes, ghost v: Value)
    requires WfTop(top)
    ensures Wf(v) && IsNamedObject(v) && TopMap(v) == top && out == Text(v)
  {
    hide WfTop, EntryText, IsNamedObject, TopMap, Tree, Distinct, Wf, EntriesText, EntriesLeft;
    var keys := Enumerate(top);
    TreeReads(keys, top);
    v := Tree(keys, top);
    out := [LBRACE];
    LeftAll(keys, top);
    for i := 0 to |keys|
      invariant [LBRACE] + EntriesText(keys, top) == out + EntriesLeft(keys, top, i)
    {
      EntriesStep(keys, top, i, out);
      if i > 0 {
        out := out + [COMMA];
      }
      out := out + EntryText(keys[i], top[keys[i]]);
    }
    assert out + [] == out;
    out := out + [RBRACE];
  }

  lemma LeftAll(keys: seq<bytes>, top: map<bytes, Value>)
    requires forall k | k in keys :: k in top
    ensures EntriesLeft(keys, top, 0) == EntriesText(keys, top) && EntriesLeft(keys, top, |keys|) == []
  {
    assert keys[0..] == keys;
    assert [] + EntriesText(keys, top) == EntriesText(keys, top);
  }

  lemma NewKey(keys: seq<bytes>, k: bytes)
    requires k !in KeySet(keys) && Distinct(keys)
    ensures Distinct(keys + [k]) && KeySet(keys + [k]) == KeySet(keys) + {k}
  {
    forall i | 0 <= i < |keys|
      ensures keys[i] != k
    {
      assert keys[i] in keys;
    }
  }

  /** What is still to be written after the first `i` members. */
  function EntriesLeft(keys: seq<bytes>, top: map<bytes, Value>, i: nat): bytes
    requires i <= |keys| && forall k | k in keys :: k in top
  {
    if i == |keys| then [] else (if i > 0 then [COMMA] else []) + EntriesText(keys[i..], top)
  }

  lemma EntriesStep(keys: seq<bytes>, top: map<bytes, Value>, i: nat, written: bytes)
    requires i < |keys| && forall k | k in keys :: k in top
    ensures written + EntriesLeft(keys, top, i) ==
            (if i > 0 then written + [COMMA] else written) + EntryText(keys[i], top[keys[i]]) +
              EntriesLeft(keys, top, i + 1)
  {
    hide EntryText;
    assert keys[i..][1..] == keys[i + 1..];
    var t, rest := EntryText(keys[i], top[keys[i]]), EntriesLeft(keys, top, i + 1);
    var sep: bytes := if i > 0 then [COMMA] else [];
    assert EntriesText(keys[i..], top) == t + rest by { assert t + [] == t; }
    assert written + [] == written;
    assert written + (sep + (t + rest)) == (written + sep) + t + rest;
  }

  type TopParser = bytes -> Wrapped<map<bytes, Value>>

  ghost predicate ParsesTop(parse: TopParser) {
    forall body :: parse(body) == ParseTop(body)
  }

  lemma {:induction false} FilterItemsWf(fits: Numbers, ser: JV -> Value, filter: seq<Field>)
    requires IsWriter(fits, ser) && WfFields(fits, filter) && filter != []
    ensures WfItems(FilterItems(ser, filter))
    decreases |filter|
  {
    hide IsWriter, TermQuery, Utf8.Valid;
    assert filter[0] in filter;
    TermWf(fits, ser, filter[0]);
    if |filter| > 1 {
      assert forall f | f in filter[1..] :: f in filter;
      FilterItemsWf(fits, ser, filter[1..]);
    }
  }

  lemma TermWf(fits: Numbers, ser: JV -> Value, f: Field)
    requires IsWriter(fits, ser) && Utf8.Valid(f.name) && WfJV(fits, f.value)
    ensures Wf(TermQuery(ser, f))
  {
    hide IsWriter, OneMember, Wf, Utf8.Valid, WfJV;
    WriterWrites(fits, ser, f.value);
    OneMemberWf(f.name, ser(f.value));
    OneMemberWf(TERM, OneMember(f.name, ser(f.value)));
  }

  lemma OneMemberWf(name: bytes, v: Value)
    requires Wf(v)
    ensures Wf(OneMember(name, v))
  {
    hide WriteString, WfUnits;
    WriteStringDecodes(name);
    var m := LastMember([], Key(name), [], [], v, []);
    assert WfMembers(m);
  }

  lemma TwoMembersWf(a: bytes, x: Value, b: bytes, y: Value)
    requires Wf(x) && Wf(y)
    ensures Wf(Obj(Member([], Key(a), [], [], x, [], LastMember([], Key(b), [], [], y, []))))
  {
    hide WriteString, WfUnits;
    WriteStringDecodes(a);
    WriteStringDecodes(b);
    var last := LastMember([], Key(b), [], [], y, []);
    assert WfMembers(last);
    assert WfMembers(Member([], Key(a), [], [], x, [], last));
  }

  lemma WfArray(items: Items)
    requires WfItems(items)
    ensures Wf(Arr(items))
  {
  }

  lemma FilteredWf(fits: Numbers, ser: JV -> Value, client: Option<Value>, filter: seq<Field>)
    requires IsWriter(fits, ser) && WfFields(fits, filter) && (client.Some? ==> Wf(client.value))
    ensures Wf(FilteredQuery(ser, client, filter))
  {
    hide IsWriter, WfFields, OneMember, FilterItems;
    if filter != [] {
      FilterItemsWf(fits, ser, filter);
      WfArray(FilterItems(ser, filter));
    }
    if client.Some? {
      WfArray(LastItem([], client.value, []));
    }
    assert Wf(EmptyArr([]));
    hide Wf, MustClause, FilterClause;
    TwoMembersWf(MUST, MustClause(client), FILTER, FilterClause(ser, filter));
    OneMemberWf(BOOL, Obj(Member([], Key(MUST), [], [], MustClause(client), [],
                                 LastMember([], Key(FILTER), [], [], FilterClause(ser, filter), []))));
  }

  lemma WrappedWf(fits: Numbers, ser: JV -> Value, body: bytes, filter: seq<Field>)
    requires IsWriter(fits, ser) && WfFields(fits, filter) && WrapTop(fits, ser, ParseTop(body), filter).Ok?
    ensures WfTop(WrapTop(fits, ser, ParseTop(body), filter).value)
  {
    hide IsWriter, WfFields, ParseTop, Rejected, FilteredQuery, Legal;
    ParsedIsRaw(body);
    var top := ParseTop(body).value;
    FilteredWf(fits, ser, ClientQuery(top), filter);
    Utf8.AsciiIsValid(QUERY);
  }

  /** `wrap_query`: its bytes are an object with the client's members, except that its
      query is the client's under the partition filter. */
  method WrapQuery(fits: Numbers, ser: JV -> Value, parse: TopParser, body: bytes, filter: seq<Field>)
    returns (r: Wrapped<bytes>, ghost v: Value)
    requires IsWriter(fits, ser) && WfFields(fits, filter) && ParsesTop(parse)
    ensures match WrapTop(fits, ser, ParseTop(body), filter)
            case Err(e) => r == Err(e)
            case Ok(top) =>
              r.Ok? && JsonSound.DocumentOf(r.value, [], v, []) && IsNamedObject(v) && TopMap(v) == top
  {
    hide IsWriter, WfFields, ParseTop, Rejected, FilteredText, WfTop, IsNamedObject, TopMap;
    v := EmptyObj([]);
    var parsed := parse(body);
    if parsed.Err? {
      return Err(parsed.error), v;
    }
    var top := parsed.value;
    if filter != [] {
      var rejected := Rejected(fits, top);
      if rejected.Some? {
        return Err(rejected.value), v;
      }
    }
    var client := ClientQuery(top);
    ghost var q := FilteredQuery(ser, client, filter);
    var raw := BuildFilteredQuery(ser, if client.Some? then Some(Text(client.value)) else None, filter, client);
    FilteredIsText(ser, client, filter);
    WrappedWf(fits, ser, body, filter);
    var out;
    out, v := WriteTop(top[QUERY := FilteredQuery(ser, client, filter)]);
    assert raw == Text(q);
    assert [] + out == out;
    r := Ok(out);
  }
}
