/**
  The streaming transform against the buffered one, as JSON values: exactly when
  the streamed bytes denote what `shape_hits` makes of the same response.
*/
module SearchOracle {
  import opened Bytes
  import opened JsonText
  import opened JsonRaw
  import opened JsonString
  import opened JsonValue
  import opened ReadShaping
  import opened SearchScan
  import opened SearchTree
  import opened SearchResponse
  import IdTemplate
  import JsonParse
  import JsonSound
  import JsonUnique
  import Utf8

  /** What the per-hit transform does to a framed element: a value that parses is
      shaped and written back, any other is forwarded raw. */
  function Reshape(fits: Numbers, ser: JV -> Value, shape: JV -> JV, e: Value): Value {
    if Strict(fits, e) then ser(shape(Denote(e))) else e
  }

  ghost predicate TransformsLike(fits: Numbers, f: bytes -> bytes, ser: JV -> Value, shape: JV -> JV) {
    && IsWriter(fits, ser)
    && (forall j | WfJV(fits, j) :: WfJV(fits, shape(j)))
    && (forall e | Wf(e) :: f(Text(e)) == Text(Reshape(fits, ser, shape, e)))
  }

  // ---------- the shaped response as a tree ----------

  function ReshapeItems(fits: Numbers, ser: JV -> Value, shape: JV -> JV, items: Items): Items {
    match items
    case LastItem(pre, v, post) => LastItem(pre, Reshape(fits, ser, shape, v), post)
    case Item(pre, v, post, rest) => Item(pre, Reshape(fits, ser, shape, v), post, ReshapeItems(fits, ser, shape, rest))
  }

  function ReshapeHitsValue(fits: Numbers, ser: JV -> Value, shape: JV -> JV, level: nat, v: Value): Value
    decreases v, 1
  {
    if level == 1 && v.Obj? then Obj(ReshapeMembers(fits, ser, shape, 2, v.members))
    else if level == 2 && v.Arr? then Arr(ReshapeItems(fits, ser, shape, v.items))
    else v
  }

  function ReshapeMembers(fits: Numbers, ser: JV -> Value, shape: JV -> JV, level: nat, m: Members): Members
    decreases m, 0
  {
    if KeyIsHits(m.key) then m.(v := ReshapeHitsValue(fits, ser, shape, level, m.v))
    else if m.Member? then m.(rest := ReshapeMembers(fits, ser, shape, level, m.rest))
    else m
  }

  function ReshapeValue(fits: Numbers, ser: JV -> Value, shape: JV -> JV, v: Value): Value {
    if v.Obj? then Obj(ReshapeMembers(fits, ser, shape, 1, v.members)) else v
  }

  lemma {:induction false} ItemsAreText(fits: Numbers, f: bytes -> bytes, ser: JV -> Value, shape: JV -> JV,
                                        items: Items, k: bytes)
    requires TransformsLike(fits, f, ser, shape) && WfItems(items)
    ensures ShapeItems(f, items, k) == PrintItems(ReshapeItems(fits, ser, shape, items), k)
    decreases items
  {
    hide Reshape, IsWriter;
    var r := Reshape(fits, ser, shape, items.v);
    if items.Item? {
      ItemsAreText(fits, f, ser, shape, items.rest, k);
    }
    PrintAppends(r, items.post + AfterShapedItem(f, items, k));
  }

  lemma {:induction false} HitsValueIsText(fits: Numbers, f: bytes -> bytes, ser: JV -> Value, shape: JV -> JV,
                                           level: nat, v: Value, k: bytes)
    requires TransformsLike(fits, f, ser, shape) && Wf(v)
    ensures Print(ReshapeHitsValue(fits, ser, shape, level, v), k) ==
            if level == 1 && v.Obj? then [LBRACE] + ShapeMembers(f, 2, v.members, k)
            else if level == 2 && v.Arr? then [LBRACKET] + ShapeItems(f, v.items, k)
            else Print(v, k)
    decreases v, 1
  {
    hide Reshape, TransformsLike, KeyIsHits;
    if level == 1 && v.Obj? {
      MembersAreText(fits, f, ser, shape, 2, v.members, k);
    } else if level == 2 && v.Arr? {
      ItemsAreText(fits, f, ser, shape, v.items, k);
    }
  }

  lemma {:induction false} MembersAreText(fits: Numbers, f: bytes -> bytes, ser: JV -> Value, shape: JV -> JV,
                                          level: nat, m: Members, k: bytes)
    requires TransformsLike(fits, f, ser, shape) && WfMembers(m)
    ensures ShapeMembers(f, level, m, k) == PrintMembers(ReshapeMembers(fits, ser, shape, level, m), k)
    decreases m, 0
  {
    hide Reshape, TransformsLike, KeyIsHits;
    var r := ReshapeMembers(fits, ser, shape, level, m);
    if KeyIsHits(m.key) {
      HitsValueIsText(fits, f, ser, shape, level, m.v, m.post + AfterMember(m, k));
      assert AfterMember(r, k) == AfterMember(m, k);
      assert AfterKey(r, AfterMember(m, k)) == m.mid + ([COLON] + (m.vpre + ShapeFromValue(f, level, m, k)));
    } else if m.Member? {
      MembersAreText(fits, f, ser, shape, level, m.rest, k);
    }
  }

  // ---------- what that tree denotes ----------

  lemma HitsKey(u: Units)
    ensures KeyIsHits(u) <==> KeyOf(u) == Some(HITS)
  {
  }

  /** How many members are named `hits`. */
  function CountHits(m: Members): nat {
    (if KeyIsHits(m.key) then 1 else 0) + (if m.Member? then CountHits(m.rest) else 0)
  }

  lemma ReshapedOne(fits: Numbers, ser: JV -> Value, shape: JV -> JV, f: bytes -> bytes, v: Value)
    requires TransformsLike(fits, f, ser, shape) && Wf(v) && Strict(fits, v)
    ensures var r := Reshape(fits, ser, shape, v); Wf(r) && Strict(fits, r) && Denote(r) == shape(Denote(v))
  {
    DenoteIsWf(fits, v);
    assert Writes(fits, ser, shape(Denote(v)));
  }

  lemma {:induction false} ReshapedItems(fits: Numbers, ser: JV -> Value, shape: JV -> JV, f: bytes -> bytes,
                                         items: Items)
    requires TransformsLike(fits, f, ser, shape) && WfItems(items) && StrictItems(fits, items)
    ensures var r := ReshapeItems(fits, ser, shape, items);
            StrictItems(fits, r) && WfItems(r) && |DenoteItems(r)| == |DenoteItems(items)|
            && forall i | 0 <= i < |DenoteItems(items)| :: DenoteItems(r)[i] == shape(DenoteItems(items)[i])
    decreases items
  {
    hide IsWriter;
    ReshapedOne(fits, ser, shape, f, items.v);
    hide TransformsLike, Reshape, Decodes, NumbersFit, Denote, Wf;
    if items.Item? {
      ReshapedItems(fits, ser, shape, f, items.rest);
    }
  }

  lemma {:induction false} NoHits(m: Members)
    requires MembersDecode(m)
    ensures CountHits(m) == 0 <==> HITS !in DenoteMembers(m)
    decreases m
  {
    HitsKey(m.key);
    if m.Member? {
      NoHits(m.rest);
    }
  }

  /** A member shaped in place counts unless a later one has the same name. */
  lemma ShapedHere(fits: Numbers, m: Members, r: Value)
    requires StrictMembers(fits, m) && KeyIsHits(m.key) && Strict(fits, r)
    ensures StrictMembers(fits, m.(v := r))
    ensures DenoteMembers(m.(v := r)) == if CountHits(m) == 1 then DenoteMembers(m)[HITS := Denote(r)]
            else DenoteMembers(m)
  {
    hide KeyIsHits, KeyOf, Decodes, NumbersFit, Denote;
    HitsKey(m.key);
    if m.Member? {
      NoHits(m.rest);
    }
  }

  lemma OverrideLater(a: map<bytes, JV>, d: map<bytes, JV>, x: JV)
    ensures a + d[HITS := x] == (a + d)[HITS := x]
  {
  }

  lemma ShapedLater(fits: Numbers, m: Members, r: Members, x: JV)
    requires m.Member? && StrictMembers(fits, m) && StrictMembers(fits, r) && !KeyIsHits(m.key)
    requires DenoteMembers(r) == if CountHits(m.rest) == 1 then DenoteMembers(m.rest)[HITS := x]
             else DenoteMembers(m.rest)
    ensures StrictMembers(fits, m.(rest := r))
    ensures DenoteMembers(m.(rest := r)) == if CountHits(m) == 1 then DenoteMembers(m)[HITS := x] else DenoteMembers(m)
  {
    hide KeyIsHits, KeyOf, Denote, Decodes, NumbersFit;
    var a := map[KeyOf(m.key).value := Denote(m.v)];
    OverrideLater(a, DenoteMembers(m.rest), x);
    assert DenoteMembers(m.(rest := r)) == a + DenoteMembers(r);
  }

  /** Shaping changes the member it finds, which is the one that counts only when no
      later member has the same name. */
  lemma {:induction false} ReshapedMembers(fits: Numbers, ser: JV -> Value, shape: JV -> JV, f: bytes -> bytes,
                                           level: nat, m: Members)
    requires TransformsLike(fits, f, ser, shape) && WfMembers(m) && StrictMembers(fits, m) && level <= 2
    ensures var r := ReshapeMembers(fits, ser, shape, level, m);
            StrictMembers(fits, r) && WfMembers(r)
            && DenoteMembers(r) ==
               (if CountHits(m) == 1 then DenoteMembers(m)[HITS := HitsOf(fits, ser, shape, level, m)]
                else DenoteMembers(m))
    decreases m, 0
  {
    hide TransformsLike, DenoteMembers, KeyIsHits, CountHits;
    if KeyIsHits(m.key) {
      ReshapedHitsValue(fits, ser, shape, f, level, m.v);
      ShapedHere(fits, m, ReshapeHitsValue(fits, ser, shape, level, m.v));
    } else if m.Member? {
      ReshapedMembers(fits, ser, shape, f, level, m.rest);
      ShapedLater(fits, m, ReshapeMembers(fits, ser, shape, level, m.rest), HitsOf(fits, ser, shape, level, m.rest));
    } else {
      NoneHere(m);
    }
  }

  lemma NoneHere(m: Members)
    requires m.LastMember? && !KeyIsHits(m.key)
    ensures CountHits(m) == 0
  {
  }

  lemma {:induction false} ReshapedHitsValue(fits: Numbers, ser: JV -> Value, shape: JV -> JV, f: bytes -> bytes,
                                             level: nat, v: Value)
    requires TransformsLike(fits, f, ser, shape) && Wf(v) && Strict(fits, v) && level <= 2
    ensures var r := ReshapeHitsValue(fits, ser, shape, level, v); Strict(fits, r) && Wf(r)
    decreases v, 1
  {
    if level == 1 && v.Obj? {
      ReshapedMembers(fits, ser, shape, f, 2, v.members);
    } else if level == 2 && v.Arr? {
      ReshapedItems(fits, ser, shape, f, v.items);
    }
  }

  /** What the first member named `hits` is reshaped to. */
  function HitsOf(fits: Numbers, ser: JV -> Value, shape: JV -> JV, level: nat, m: Members): JV {
    if KeyIsHits(m.key) then
      var v := ReshapeHitsValue(fits, ser, shape, level, m.v);
      if Strict(fits, v) then Denote(v) else JLit(Null)
    else if m.Member? then HitsOf(fits, ser, shape, level, m.rest)
    else JLit(Null)
  }

  function HitsValue(m: Members): Value {
    if !KeyIsHits(m.key) && m.Member? then HitsValue(m.rest) else m.v
  }

  /** At most one root member is named `hits`, and it holds at most one. */
  predicate UniqueHits(v: Value) {
    v.Obj? ==> CountHits(v.members) <= 1
               && (CountHits(v.members) == 1 && HitsValue(v.members).Obj? ==>
                   CountHits(HitsValue(v.members).members) <= 1)
  }

  lemma {:induction false} OneHitsMember(fits: Numbers, ser: JV -> Value, shape: JV -> JV, f: bytes -> bytes,
                                         level: nat, m: Members)
    requires TransformsLike(fits, f, ser, shape) && WfMembers(m) && StrictMembers(fits, m) && level <= 2
             && CountHits(m) == 1
    ensures var v := HitsValue(m);
            Wf(v) && Strict(fits, v) && HITS in DenoteMembers(m) && DenoteMembers(m)[HITS] == Denote(v)
            && Strict(fits, ReshapeHitsValue(fits, ser, shape, level, v))
            && HitsOf(fits, ser, shape, level, m) == Denote(ReshapeHitsValue(fits, ser, shape, level, v))
    decreases m
  {
    hide TransformsLike;
    HitsKey(m.key);
    if KeyIsHits(m.key) {
      ReshapedHitsValue(fits, ser, shape, f, level, m.v);
      if m.Member? {
        NoHits(m.rest);
      }
    } else if m.Member? {
      OneHitsMember(fits, ser, shape, f, level, m.rest);
    }
  }

  /** The inner `hits`: the envelope is shaped when its `hits` member is unique. */
  lemma ReshapedEnvelope(fits: Numbers, ser: JV -> Value, shape: JV -> JV, f: bytes -> bytes, v: Value)
    requires TransformsLike(fits, f, ser, shape) && Wf(v) && Strict(fits, v)
    ensures var r := ReshapeHitsValue(fits, ser, shape, 1, v);
            Strict(fits, r)
            && Denote(r) == if v.Obj? && CountHits(v.members) > 1 then Denote(v) else ShapeEnvelope(shape, Denote(v))
  {
    hide TransformsLike, KeyIsHits, CountHits, DenoteMembers, HitsOf, HitsValue, ReshapeMembers;
    if v.Obj? {
      var m := v.members;
      ReshapedMembers(fits, ser, shape, f, 2, m);
      NoHits(m);
      if CountHits(m) == 1 {
        OneHitsMember(fits, ser, shape, f, 2, m);
        ReshapedArray(fits, ser, shape, f, HitsValue(m));
        assert DenoteMembers(m)[HITS := DenoteMembers(m)[HITS]] == DenoteMembers(m);
      }
    }
  }

  lemma ReshapedArray(fits: Numbers, ser: JV -> Value, shape: JV -> JV, f: bytes -> bytes, v: Value)
    requires TransformsLike(fits, f, ser, shape) && Wf(v) && Strict(fits, v)
    ensures var r := ReshapeHitsValue(fits, ser, shape, 2, v);
            Strict(fits, r)
            && Denote(r) == match Denote(v)
                            case JArr(elems) => JArr(seq(|elems|, i requires 0 <= i < |elems| => shape(elems[i])))
                            case _ => Denote(v)
  {
    hide TransformsLike, Reshape;
    if v.Arr? {
      ReshapedItems(fits, ser, shape, f, v.items);
      var elems := DenoteItems(v.items);
      assert DenoteItems(ReshapeItems(fits, ser, shape, v.items)) ==
        seq(|elems|, i requires 0 <= i < |elems| => shape(elems[i]));
    }
  }

  // ---------- when the stream changes nothing ----------

  /** The elements the stream frames below the first member named `hits`. */
  function HitElements(level: nat, m: Members): seq<Value>
    decreases m
  {
    if KeyIsHits(m.key) then
      if level == 1 && m.v.Obj? then HitElements(2, m.v.members)
      else if level == 2 && m.v.Arr? then ItemValues(m.v.items)
      else []
    else if m.Member? then HitElements(level, m.rest)
    else []
  }

  function ElementsOf(v: Value): seq<Value> {
    if v.Obj? then HitElements(1, v.members) else []
  }

  predicate AllStay(fits: Numbers, ser: JV -> Value, shape: JV -> JV, es: seq<Value>) {
    forall e | e in es :: Reshape(fits, ser, shape, e) == e
  }

  lemma {:induction false} ItemsStayIff(fits: Numbers, ser: JV -> Value, shape: JV -> JV, items: Items)
    ensures ReshapeItems(fits, ser, shape, items) == items <==> AllStay(fits, ser, shape, ItemValues(items))
    decreases items
  {
    hide Reshape;
    if items.Item? {
      ItemsStayIff(fits, ser, shape, items.rest);
      var rest := ItemValues(items.rest);
      assert forall e | e in ItemValues(items) :: e == items.v || e in rest;
      assert forall e | e in rest :: e in ItemValues(items);
    }
    assert items.v in ItemValues(items);
  }

  lemma {:induction false} MembersStayIff(fits: Numbers, ser: JV -> Value, shape: JV -> JV, level: nat, m: Members)
    ensures ReshapeMembers(fits, ser, shape, level, m) == m <==> AllStay(fits, ser, shape, HitElements(level, m))
    decreases m
  {
    hide Reshape, KeyIsHits, AllStay;
    assert AllStay(fits, ser, shape, []) by { NoneMove(fits, ser, shape); }
    if KeyIsHits(m.key) {
      if level == 1 && m.v.Obj? {
        MembersStayIff(fits, ser, shape, 2, m.v.members);
      } else if level == 2 && m.v.Arr? {
        ItemsStayIff(fits, ser, shape, m.v.items);
      }
    } else if m.Member? {
      MembersStayIff(fits, ser, shape, level, m.rest);
    }
  }

  lemma StayIff(fits: Numbers, ser: JV -> Value, shape: JV -> JV, v: Value)
    ensures ReshapeValue(fits, ser, shape, v) == v <==> AllStay(fits, ser, shape, ElementsOf(v))
  {
    hide HitElements, ReshapeMembers, AllStay;
    NoneMove(fits, ser, shape);
    if v.Obj? {
      MembersStayIff(fits, ser, shape, 1, v.members);
    }
  }

  lemma NoneMove(fits: Numbers, ser: JV -> Value, shape: JV -> JV)
    ensures AllStay(fits, ser, shape, [])
  {
  }

  // ---------- against the raw top level ----------

  /** At the top level the values stay raw: shaping replaces the member it finds, which
      is the one that counts only when no later member has the same name. */
  lemma {:induction false} ReshapedTopMembers(fits: Numbers, ser: JV -> Value, shape: JV -> JV, m: Members)
    requires NamedMembers(m)
    ensures HITS in TopMembers(m) <==> CountHits(m) != 0
    ensures CountHits(m) == 1 ==> TopMembers(m)[HITS] == HitsValue(m)
    ensures var r := ReshapeMembers(fits, ser, shape, 1, m);
            NamedMembers(r)
            && TopMembers(r) ==
               if CountHits(m) == 1 then TopMembers(m)[HITS := ReshapeHitsValue(fits, ser, shape, 1, HitsValue(m))]
                 else TopMembers(m)
    decreases m
  {
    hide KeyIsHits, KeyOf, ReshapeHitsValue;
    HitsKey(m.key);
    if m.Member? {
      ReshapedTopMembers(fits, ser, shape, m.rest);
      if CountHits(m.rest) == 1 && !KeyIsHits(m.key) {
        OverrideRaw(map[KeyOf(m.key).value := m.v], TopMembers(m.rest),
                    ReshapeHitsValue(fits, ser, shape, 1, HitsValue(m.rest)));
      }
    }
  }

  lemma OverrideRaw(a: map<bytes, Value>, d: map<bytes, Value>, x: Value)
    ensures a + d[HITS := x] == (a + d)[HITS := x]
  {
  }

  /** The same response to a client that reads each member: every value but `hits` is
      the span the upstream sent, and `hits` denotes the same value. */
  predicate SameResponse(fits: Numbers, a: map<bytes, Value>, b: map<bytes, Value>) {
    && a.Keys == b.Keys
    && (forall k | k in a && k != HITS :: a[k] == b[k])
    && (HITS in a ==> Strict(fits, a[HITS]) && Strict(fits, b[HITS]) && Denote(a[HITS]) == Denote(b[HITS]))
  }

  /** Every hit there is already has its logical form. */
  predicate Settled(shape: JV -> JV, hits: JV) {
    hits.JObj? && HITS in hits.fields && hits.fields[HITS].JArr? ==>
      forall e | e in hits.fields[HITS].elems :: shape(e) == e
  }

  lemma SettledIff(shape: JV -> JV, hits: JV)
    ensures ShapeEnvelope(shape, hits) == hits <==> Settled(shape, hits)
  {
    if hits.JObj? && HITS in hits.fields && hits.fields[HITS].JArr? {
      var elems := hits.fields[HITS].elems;
      var shaped := seq(|elems|, i requires 0 <= i < |elems| => shape(elems[i]));
      if Settled(shape, hits) {
        assert shaped == elems;
        assert hits.fields[HITS := JArr(elems)] == hits.fields;
      }
      if ShapeEnvelope(shape, hits) == hits {
        assert hits.fields[HITS := JArr(shaped)][HITS] == hits.fields[HITS];
        forall e | e in elems
          ensures shape(e) == e
        {
          var i :| 0 <= i < |elems| && elems[i] == e;
          assert shaped[i] == elems[i];
        }
      }
    }
  }

  lemma EnvelopeIsWf(fits: Numbers, shape: JV -> JV, hits: JV)
    requires WfJV(fits, hits) && forall j | WfJV(fits, j) :: WfJV(fits, shape(j))
    ensures WfJV(fits, ShapeEnvelope(shape, hits))
  {
    hide Utf8.Valid;
  }

  /** The streamed tree against the map `shape_hits` writes, for a response whose `hits`
      value parses. */
  lemma ReshapedTop(fits: Numbers, ser: JV -> Value, shape: JV -> JV, f: bytes -> bytes, v: Value)
    requires TransformsLike(fits, f, ser, shape) && Wf(v) && IsNamedObject(v) && HITS in TopMap(v)
    requires Wf(TopMap(v)[HITS]) && Strict(fits, TopMap(v)[HITS])
    ensures var hits := Denote(TopMap(v)[HITS]);
            var r := ReshapeValue(fits, ser, shape, v);
            IsNamedObject(r)
            && (SameResponse(fits, TopMap(r), TopMap(v)[HITS := ser(ShapeEnvelope(shape, hits))]) <==>
                UniqueHits(v) || Settled(shape, hits))
  {
    hide KeyIsHits, CountHits, TopMembers, NamedMembers, HitsValue, ReshapeMembers, ReshapeHitsValue, ShapeEnvelope;
    hide Settled, Denote, Decodes, NumbersFit, Wf;
    var m, x := v.members, TopMap(v)[HITS];
    ReshapedTopMembers(fits, ser, shape, m);
    WrittenEnvelope(fits, ser, shape, f, x);
    ReshapedEnvelope(fits, ser, shape, f, x);
    SettledIff(shape, Denote(x));
  }

  lemma WrittenEnvelope(fits: Numbers, ser: JV -> Value, shape: JV -> JV, f: bytes -> bytes, x: Value)
    requires TransformsLike(fits, f, ser, shape) && Wf(x) && Strict(fits, x)
    ensures var w := ser(ShapeEnvelope(shape, Denote(x)));
            Strict(fits, w) && Denote(w) == ShapeEnvelope(shape, Denote(x))
  {
    hide ShapeEnvelope, Denote, Decodes, NumbersFit, Wf, WfJV;
    DenoteIsWf(fits, x);
    EnvelopeIsWf(fits, shape, Denote(x));
    assert Writes(fits, ser, ShapeEnvelope(shape, Denote(x)));
  }

  /** The streamed bytes are a document, against the buffered path's result for the same
      response. Where that shapes the top level, the two agree member by member if and
      only if the `hits` members are unique or every hit already has its logical form.
      Where it passes the body through, so does the stream if and only if every element
      it frames is reshaped to itself. */
  lemma StreamEqualsBuffered(fits: Numbers, ser: JV -> Value, shape: JV -> JV, f: bytes -> bytes,
                             chunks: seq<bytes>, pre: bytes, v: Value, post: bytes) returns (r: Value)
    requires TransformsLike(fits, f, ser, shape) && JsonSound.DocumentOf(Concat(chunks), pre, v, post)
    ensures JsonSound.DocumentOf(FeedAll(f, START, chunks), pre, r, post)
    ensures match ShapeHits(fits, ser, shape, Concat(chunks))
            case Shaped(top) =>
              IsRawObject(v) && IsNamedObject(v) && IsNamedObject(r)
              && (HITS in TopMap(v) ==> Strict(fits, TopMap(v)[HITS]))
              && (SameResponse(fits, TopMap(r), top) <==>
                  UniqueHits(v) || (HITS in TopMap(v) && Settled(shape, Denote(TopMap(v)[HITS]))))
            case Unchanged => !IsRawObject(v) && (r == v <==> AllStay(fits, ser, shape, ElementsOf(v)))
            case Refused =>
              if IsRawObject(v) then IsNamedObject(v) && HITS in TopMap(v) && !Strict(fits, TopMap(v)[HITS])
              else !IsRaw(v)
  {
    hide TransformsLike;
    hide KeyIsHits, TopMembers, NamedMembers, ReshapeMembers, ShapeMembers, ShapeEnvelope, IsRaw, RawMembers, Wf;
    hide Decodes, NumbersFit, Denote;
    hide UniqueHits, Settled, HitElements, AllStay;
    r := ReshapeValue(fits, ser, shape, v);
    StreamShapesDocument(f, chunks, pre, v, post);
    StreamedIsReshaped(fits, ser, shape, f, v, pre, post);
    ShapeHitsOf(fits, ser, shape, Concat(chunks), pre, v, post);
    StayIff(fits, ser, shape, v);
    if IsRawObject(v) {
      RawTop(v);
      if HITS !in TopMap(v) {
        NothingReshaped(fits, ser, shape, v);
      } else if Strict(fits, TopMap(v)[HITS]) {
        RawIsWf(TopMap(v)[HITS]);
        ReshapedTop(fits, ser, shape, f, v);
      }
    }
  }

  lemma RawIsWf(v: Value)
    requires IsRaw(v)
    ensures Wf(v)
  {
  }

  lemma NothingReshaped(fits: Numbers, ser: JV -> Value, shape: JV -> JV, v: Value)
    requires IsNamedObject(v) && HITS !in TopMap(v)
    ensures var r := ReshapeValue(fits, ser, shape, v);
            IsNamedObject(r) && TopMap(r) == TopMap(v) && UniqueHits(v)
  {
    hide KeyIsHits, CountHits, TopMembers, NamedMembers, ReshapeMembers;
    if v.Obj? {
      ReshapedTopMembers(fits, ser, shape, v.members);
    }
  }

  lemma {:induction false} ItemsStayWf(fits: Numbers, ser: JV -> Value, shape: JV -> JV, f: bytes -> bytes,
                                       items: Items)
    requires TransformsLike(fits, f, ser, shape) && WfItems(items)
    ensures WfItems(ReshapeItems(fits, ser, shape, items))
    decreases items
  {
    hide IsWriter, Wf;
    if Strict(fits, items.v) {
      ReshapedOne(fits, ser, shape, f, items.v);
    }
    hide TransformsLike, Decodes, NumbersFit, Denote;
    if items.Item? {
      ItemsStayWf(fits, ser, shape, f, items.rest);
    }
  }

  lemma {:induction false} HitsValueStaysWf(fits: Numbers, ser: JV -> Value, shape: JV -> JV, f: bytes -> bytes,
                                            level: nat, v: Value)
    requires TransformsLike(fits, f, ser, shape) && Wf(v)
    ensures Wf(ReshapeHitsValue(fits, ser, shape, level, v))
    decreases v, 1
  {
    hide TransformsLike, Reshape;
    if level == 1 && v.Obj? {
      MembersStayWf(fits, ser, shape, f, 2, v.members);
    } else if level == 2 && v.Arr? {
      ItemsStayWf(fits, ser, shape, f, v.items);
    }
  }

  lemma {:induction false} MembersStayWf(fits: Numbers, ser: JV -> Value, shape: JV -> JV, f: bytes -> bytes,
                                         level: nat, m: Members)
    requires TransformsLike(fits, f, ser, shape) && WfMembers(m)
    ensures WfMembers(ReshapeMembers(fits, ser, shape, level, m))
    decreases m, 0
  {
    hide TransformsLike, Reshape, KeyIsHits;
    if KeyIsHits(m.key) {
      HitsValueStaysWf(fits, ser, shape, f, level, m.v);
    } else if m.Member? {
      MembersStayWf(fits, ser, shape, f, level, m.rest);
    }
  }

  /** The streamed text is the text of the reshaped tree, which is well-formed. */
  lemma StreamedIsReshaped(fits: Numbers, ser: JV -> Value, shape: JV -> JV, f: bytes -> bytes, v: Value, pre: bytes,
                           post: bytes)
    requires TransformsLike(fits, f, ser, shape) && Wf(v)
    ensures var r := ReshapeValue(fits, ser, shape, v);
            ShapeDocument(f, pre, v, post) == pre + Print(r, post) && Wf(r)
  {
    hide TransformsLike, ReshapeMembers, ShapeMembers;
    if v.Obj? {
      MembersAreText(fits, f, ser, shape, 1, v.members, post);
      MembersStayWf(fits, ser, shape, f, 1, v.members);
    }
  }

  /** On any response document the stream emits the body it was given if and only if
      every element of `hits.hits` is reshaped to itself. */
  lemma StreamUnchangedIff(fits: Numbers, ser: JV -> Value, shape: JV -> JV, f: bytes -> bytes,
                           chunks: seq<bytes>, pre: bytes, v: Value, post: bytes)
    requires TransformsLike(fits, f, ser, shape) && JsonSound.DocumentOf(Concat(chunks), pre, v, post)
    ensures FeedAll(f, START, chunks) == Concat(chunks) <==> AllStay(fits, ser, shape, ElementsOf(v))
  {
    hide TransformsLike, ReshapeMembers, ShapeMembers, HitElements, AllStay, Wf;
    var r := ReshapeValue(fits, ser, shape, v);
    StreamShapesDocument(f, chunks, pre, v, post);
    StreamedIsReshaped(fits, ser, shape, f, v, pre, post);
    StayIff(fits, ser, shape, v);
    if FeedAll(f, START, chunks) == Concat(chunks) {
      JsonUnique.DocumentUnique(Concat(chunks), pre, v, post, pre, r, post);
    }
  }

  // ---------- the transform the proxy runs ----------

  /** The shaper holds Rust strings, so the text it puts into a hit is UTF-8. */
  predicate WfShaper(h: HitShaper) {
    && Utf8.Valid(h.logicalIndex)
    && (h.idTemplate.Some? ==>
          var r := IdTemplate.IdFrame(h.idTemplate.value, h.partition);
          r.Ok? ==> Utf8.Valid(r.value.prefix) && Utf8.Valid(r.value.suffix))
  }

  /** Whole characters are stripped off both ends, so whole ones are left. */
  lemma StrippedIsValid(f: IdTemplate.Frame, s: bytes)
    requires Utf8.Valid(f.prefix) && Utf8.Valid(f.suffix) && Utf8.Valid(s) && IdTemplate.Strip(f, s).Some?
    ensures Utf8.Valid(IdTemplate.Strip(f, s).value)
  {
    hide Utf8.Valid;
    var rest := s[|f.prefix|..];
    var x := IdTemplate.Strip(f, s).value;
    assert s == f.prefix + rest && rest == x + f.suffix;
    Utf8.ValidTail(f.prefix, rest);
    Utf8.ValidHead(x, f.suffix);
  }

  lemma LogicalIdIsWf(fits: Numbers, h: HitShaper, id: JV)
    requires WfShaper(h) && WfJV(fits, id)
    ensures WfJV(fits, LogicalId(h, id))
  {
    hide Utf8.Valid, IdTemplate.IdFrame, IdTemplate.Strip;
    if h.idTemplate.Some? && id.JStr? {
      var r := IdTemplate.IdFrame(h.idTemplate.value, h.partition);
      if r.Ok? && IdTemplate.Strip(r.value, id.s).Some? {
        StrippedIsValid(r.value, id.s);
      }
    }
  }

  lemma SetFieldIsWf(fits: Numbers, fields: map<bytes, JV>, k: bytes, x: JV)
    requires WfJV(fits, JObj(fields)) && Utf8.Valid(k) && WfJV(fits, x)
    ensures WfJV(fits, JObj(fields[k := x]))
  {
    hide Utf8.Valid;
  }

  lemma DropFieldsIsWf(fits: Numbers, fields: map<bytes, JV>, names: set<bytes>)
    requires WfJV(fits, JObj(fields))
    ensures WfJV(fits, JObj(fields - names))
  {
    hide Utf8.Valid;
  }

  lemma ShapeHitIsWf(fits: Numbers, h: HitShaper, hit: JV)
    requires WfShaper(h) && WfJV(fits, hit)
    ensures WfJV(fits, ShapeHit(h, hit))
  {
    hide WfJV, Utf8.Valid, LogicalId, WfShaper;
    if hit.JObj? {
      assert Utf8.Valid(INDEX) by { Utf8.AsciiIsValid(INDEX); }
      IndexIsWf(fits, h);
      SetFieldIsWf(fits, hit.fields, INDEX, JStr(h.logicalIndex));
      DropFieldsIsWf(fits, hit.fields[INDEX := JStr(h.logicalIndex)], {ROUTING});
      var a := hit.fields[INDEX := JStr(h.logicalIndex)] - {ROUTING};
      if ID in a {
        FieldIsWf(fits, a, ID);
        LogicalIdIsWf(fits, h, a[ID]);
        SetFieldIsWf(fits, a, ID, LogicalId(h, a[ID]));
      }
      var b := if ID in a then a[ID := LogicalId(h, a[ID])] else a;
      if SOURCE in b {
        FieldIsWf(fits, b, SOURCE);
        if b[SOURCE].JObj? {
          DropFieldsIsWf(fits, b[SOURCE].fields, set n | n in h.injectNames);
        }
        SetFieldIsWf(fits, b, SOURCE, StripFields(b[SOURCE], h.injectNames));
      }
    }
  }

  lemma IndexIsWf(fits: Numbers, h: HitShaper)
    requires WfShaper(h)
    ensures WfJV(fits, JStr(h.logicalIndex))
  {
    hide Utf8.Valid;
  }

  lemma FieldIsWf(fits: Numbers, fields: map<bytes, JV>, k: bytes)
    requires WfJV(fits, JObj(fields)) && k in fields
    ensures Utf8.Valid(k) && WfJV(fits, fields[k])
  {
    hide Utf8.Valid;
  }

  /** One framed element, as the proxy transforms it: parsed, shaped and written back;
      forwarded raw when it does not parse. */
  ghost function HitTransform(fits: Numbers, ser: JV -> Value, h: HitShaper): bytes -> bytes {
    raw => match JsonParse.Parse(fits, raw)
           case Some(j) => Text(ser(ShapeHit(h, j)))
           case None => raw
  }

  lemma RawIsForwarded(fits: Numbers, ser: JV -> Value, h: HitShaper, raw: bytes)
    requires !JsonSound.IsDocument(raw)
    ensures HitTransform(fits, ser, h)(raw) == raw
  {
    hide JsonParse.Parse, JsonSound.IsDocument, ShapeHit;
    JsonParse.ParseOfOther(fits, raw);
  }

  /** Parsing picks out the element's one reading, so the transform is well defined. */
  lemma HitTransformIsLike(fits: Numbers, ser: JV -> Value, h: HitShaper)
    requires IsWriter(fits, ser) && WfShaper(h)
    ensures TransformsLike(fits, HitTransform(fits, ser, h), ser, j => ShapeHit(h, j))
    ensures forall raw | !JsonSound.IsDocument(raw) :: HitTransform(fits, ser, h)(raw) == raw
  {
    forall raw | !JsonSound.IsDocument(raw)
      ensures HitTransform(fits, ser, h)(raw) == raw
    {
      RawIsForwarded(fits, ser, h, raw);
    }
    var f, shape := HitTransform(fits, ser, h), (j: JV) => ShapeHit(h, j);
    forall j | WfJV(fits, j)
      ensures WfJV(fits, shape(j))
    {
      ShapeHitIsWf(fits, h, j);
    }
    forall e | Wf(e)
      ensures f(Text(e)) == Text(Reshape(fits, ser, shape, e))
    {
      TransformOfText(fits, ser, h, e);
    }
  }

  lemma TransformOfText(fits: Numbers, ser: JV -> Value, h: HitShaper, e: Value)
    requires Wf(e)
    ensures HitTransform(fits, ser, h)(Text(e)) == Text(if Strict(fits, e) then ser(ShapeHit(h, Denote(e))) else e)
  {
    hide Wf, Decodes, NumbersFit, Denote, Print, ShapeHit, JsonParse.Parse;
    ParseOfText(fits, e);
  }
}
