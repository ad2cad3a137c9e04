/**
  The buffered read path: one hit shaped into the client's logical view, and the
  hits envelope shaped hit by hit. This is the oracle the streaming transform is
  held to. The proxy edits a mutable tree; here the tree is a value.
*/
module ReadShaping {
  import opened Bytes
  import opened JsonRaw
  import opened JsonText
  import opened JsonValue
  import opened SearchScan
  import Addressing
  import IdTemplate
  import JsonParse
  import JsonSound

  const INDEX: bytes := [0x5F, 0x69, 0x6E, 0x64, 0x65, 0x78]
  const ID: bytes := [0x5F, 0x69, 0x64]
  const ROUTING: bytes := [0x5F, 0x72, 0x6F, 0x75, 0x74, 0x69, 0x6E, 0x67]
  const SOURCE: bytes := [0x5F, 0x73, 0x6F, 0x75, 0x72, 0x63, 0x65]

  lemma Names()
    ensures INDEX == Ascii("_index") && ID == Ascii("_id") && ROUTING == Ascii("_routing")
    ensures SOURCE == Ascii("_source") && HITS == Ascii("hits")
  {
  }

  datatype HitShaper = HitShaper(logicalIndex: bytes, partition: bytes, injectNames: seq<bytes>,
                                 idTemplate: Option<bytes>)

  /** Removes each named field from the top level, if there is one. */
  function StripFields(j: JV, names: seq<bytes>): JV {
    if j.JObj? then JObj(j.fields - set n | n in names) else j
  }

  /** The `_id` of a hit, mapped back to logical when it fits the id rule. */
  function LogicalId(h: HitShaper, id: JV): JV {
    if h.idTemplate.Some? && id.JStr? then
      match IdTemplate.MapPhysicalToLogical(h.idTemplate.value, h.partition, id.s)
      case Ok(Some(logical)) => JStr(logical)
      case _ => id
    else id
  }

  function ShapeHit(h: HitShaper, hit: JV): JV {
    if !hit.JObj? then hit
    else
      var a := hit.fields[INDEX := JStr(h.logicalIndex)] - {ROUTING};
      var b := if ID in a then a[ID := LogicalId(h, a[ID])] else a;
      JObj(if SOURCE in b then b[SOURCE := StripFields(b[SOURCE], h.injectNames)] else b)
  }

  /** What the `hits` object of a response becomes. */
  function ShapeEnvelope(shape: JV -> JV, hits: JV): JV {
    if hits.JObj? && HITS in hits.fields && hits.fields[HITS].JArr? then
      var elems := hits.fields[HITS].elems;
      JObj(hits.fields[HITS := JArr(seq(|elems|, i requires 0 <= i < |elems| => shape(elems[i])))])
    else hits
  }

  /** A body passed through, a re-serialised top level, or an error. */
  datatype Buffered = Unchanged | Shaped(top: map<bytes, Value>) | Refused

  /** `shape_hits`. The top level is parsed, its values stay raw spans, and only the one
      called `hits` is parsed further, shaped and written back. */
  ghost function ShapeHits(fits: Numbers, ser: JV -> Value, shape: JV -> JV, body: bytes): Buffered {
    match TopReading(body)
    case Some(v) =>
      RawTop(v);
      var top := TopMap(v);
      if HITS !in top then Shaped(top)
      else
        (match JsonParse.Parse(fits, Text(top[HITS]))
         case Some(hits) => Shaped(top[HITS := ser(ShapeEnvelope(shape, hits))])
         case None => Refused)
    case None => if ReadsRaw(body) then Unchanged else Refused
  }

  /** What it returns for a document, read off its tree. An object with a name that does
      not decode is no map of raw values and passes through with its hits unshaped. */
  lemma ShapeHitsOf(fits: Numbers, ser: JV -> Value, shape: JV -> JV, body: bytes, pre: bytes, v: Value, post: bytes)
    requires JsonSound.DocumentOf(body, pre, v, post)
    ensures IsRawObject(v) ==> IsNamedObject(v)
    ensures ShapeHits(fits, ser, shape, body) ==
            if !IsRawObject(v) then (if IsRaw(v) then Unchanged else Refused)
            else if HITS !in TopMap(v) then Shaped(TopMap(v))
            else if !Strict(fits, TopMap(v)[HITS]) then Refused
            else Shaped(TopMap(v)[HITS := ser(ShapeEnvelope(shape, Denote(TopMap(v)[HITS])))])
  {
    hide TopMap, IsRawObject, JsonSound.DocumentOf, ShapeEnvelope, Decodes, NumbersFit, Denote, JsonParse.Parse, Print;
    OneReading(body, pre, v, post);
    if IsRawObject(v) {
      RawTop(v);
      if HITS in TopMap(v) {
        ParseOfText(fits, TopMap(v)[HITS]);
      }
    }
  }

  lemma ParseOfText(fits: Numbers, v: Value)
    requires Wf(v)
    ensures JsonParse.Parse(fits, Text(v)) == if Strict(fits, v) then Some(Denote(v)) else None
  {
    hide Wf, Decodes, NumbersFit, Denote, Print, JsonParse.Parse;
    assert [] + Text(v) == Text(v);
    JsonParse.ParseOf(fits, Text(v), [], v, []);
  }

  /** A shaped hit shows the client's index, no routing and no injected field; everything
      else of the hit and of its source is untouched. A source that is no object stays as
      it is. */
  lemma ShapedHitIsLogical(h: HitShaper, hit: JV)
    ensures !hit.JObj? ==> ShapeHit(h, hit) == hit
    ensures var r := ShapeHit(h, hit);
            hit.JObj? ==>
            && r.JObj? && INDEX in r.fields && r.fields[INDEX] == JStr(h.logicalIndex) && ROUTING !in r.fields
            && (forall k | k != INDEX && k != ROUTING && k != ID && k != SOURCE ::
                  (k in r.fields <==> k in hit.fields) && (k in r.fields ==> r.fields[k] == hit.fields[k]))
            && (ID in r.fields <==> ID in hit.fields)
            && (ID in r.fields ==> r.fields[ID] == LogicalId(h, hit.fields[ID]))
            && (SOURCE in r.fields <==> SOURCE in hit.fields)
            && (SOURCE in hit.fields && !hit.fields[SOURCE].JObj? ==> r.fields[SOURCE] == hit.fields[SOURCE])
            && (SOURCE in hit.fields && hit.fields[SOURCE].JObj? ==>
                  && r.fields[SOURCE].JObj?
                  && forall k ::
                       && (k in r.fields[SOURCE].fields <==> k in hit.fields[SOURCE].fields && k !in h.injectNames)
                       && (k in r.fields[SOURCE].fields ==> r.fields[SOURCE].fields[k] == hit.fields[SOURCE].fields[k]))
  {
    assert INDEX[1] != ROUTING[1] && INDEX[1] != SOURCE[1] && ROUTING[1] != SOURCE[1];
    assert |ID| == 3 && |INDEX| == 6 && |SOURCE| == 7 && |ROUTING| == 8;
  }

  /** The id shown for a hit: without an id rule, for an id that is no string, and for one
      that does not lie between the rule's prefix and suffix it is the id itself. Else it
      is what lies between them. */
  lemma LogicalIdIs(h: HitShaper, id: JV)
    ensures h.idTemplate.None? || !id.JStr? ==> LogicalId(h, id) == id
    ensures h.idTemplate.Some? && IdTemplate.IdFrame(h.idTemplate.value, h.partition).Err? ==> LogicalId(h, id) == id
    ensures h.idTemplate.Some? && id.JStr? && IdTemplate.IdFrame(h.idTemplate.value, h.partition).Ok? ==>
              var f := IdTemplate.IdFrame(h.idTemplate.value, h.partition).value;
              && (forall key | id.s == f.prefix + (key + f.suffix) :: LogicalId(h, id) == JStr(key))
              && ((forall key :: id.s != f.prefix + (key + f.suffix)) ==> LogicalId(h, id) == id)
  {
    if h.idTemplate.Some? && id.JStr? && IdTemplate.IdFrame(h.idTemplate.value, h.partition).Ok? {
      var f := IdTemplate.IdFrame(h.idTemplate.value, h.partition).value;
      forall key: bytes
        ensures IdTemplate.Strip(f, id.s) == Some(key) <==> id.s == f.prefix + (key + f.suffix)
      {
        Addressing.StripIffJoined(f, key, id.s);
        assert f.prefix + key + f.suffix == f.prefix + (key + f.suffix);
      }
    }
  }

  /** A hit shows the very id a client addresses the document by: shaping inverts the
      mapping a by-id read applies. */
  lemma ShapedIdAddresses(h: HitShaper, logical: bytes, physical: bytes)
    requires h.idTemplate.Some? && IdTemplate.IdFrame(h.idTemplate.value, h.partition).Ok?
    ensures IdTemplate.MapLogicalToPhysical(h.idTemplate.value, h.partition, logical) == Ok(physical)
            ==> LogicalId(h, JStr(physical)) == JStr(logical)
  {
    Addressing.MappingsInverse(h.idTemplate.value, h.partition, logical, physical);
  }
}
