/**
  The two bulk paths end to end: framing, parsing, preparation and demux. The buffered
  one parses the whole body before it dispatches anything, the streamed one dispatches
  each operation as it is read.
*/
module BulkIngest {
  import opened Bytes
  import opened BulkDemux
  import BulkOps
  import JsonValue
  import Ndjson

  /** What `prepare` makes of one operation. */
  type Prepare = BulkOps.BulkItem -> Item

  function PrepareAll(prepare: Prepare, items: seq<BulkOps.BulkItem>): seq<Item> {
    seq(|items|, i requires 0 <= i < |items| => prepare(items[i]))
  }

  lemma PrepareNext(prepare: Prepare, items: seq<BulkOps.BulkItem>, item: BulkOps.BulkItem)
    ensures PrepareAll(prepare, items + [item]) == PrepareAll(prepare, items) + [prepare(item)]
  {
  }

  /** The response's lines, or why there is no response. */
  type Answer = Result<seq<Option<Line>>, BulkOps.StreamStop>

  /** The buffered answer, where the batches of the operations in `lost` fail. */
  function BufferedAnswer(parse: BulkOps.Parser, prepare: Prepare, admit: nat -> bool, each: Entry -> OpResult,
                          lost: set<nat>, body: bytes): Answer {
    match BulkOps.Buffered(BulkOps.OpsOf(parse, Ndjson.NonBlank(body)))
    case Err(e) => Err(BulkOps.Refused(e))
    case Ok(items) => Ok(Simple(admit, each, lost, PrepareAll(prepare, items)))
  }

  function StreamedAnswer(parse: BulkOps.Parser, prepare: Prepare, admit: nat -> bool, each: Entry -> OpResult,
                          lost: set<nat>, body: bytes): Answer {
    var ops := BulkOps.OpsOf(parse, Ndjson.Framed(body));
    var stop := BulkOps.EndOf(Ndjson.Unterminated(body), ops);
    if stop == BulkOps.AllRead then Ok(Simple(admit, each, lost, PrepareAll(prepare, ops.items))) else Err(stop)
  }

  /** `ingest_bulk`. A body that does not parse is refused before anything is sent. */
  method IngestBuffered(parse: BulkOps.Parser, prepare: Prepare, admit: nat -> bool, sink: Sink, body: bytes)
    returns (r: Answer, ghost d: State)
    ensures forall each | BatchWise(sink, each) ::
              r == BufferedAnswer(parse, prepare, admit, each, Lost(admit, sink, d.log), body)
    ensures match BulkOps.Buffered(BulkOps.OpsOf(parse, Ndjson.NonBlank(body)))
            case Err(e) => r == Err(BulkOps.Refused(e)) && d.items == [] && d.log == []
            case Ok(items) => r == Ok(d.lines) && Finished(admit, sink, d) && d.items == PrepareAll(prepare, items)
                              && FlushedWhenFull(FLUSH_THRESHOLD, BYTE_FLUSH_THRESHOLD, d.log)
  {
    hide Kept, Simple, BatchWise, BulkOps.OpsOf, Ndjson.NonBlank, FlushedWhenFull, Lost;
    d := State(map[], map[], [], [], []);
    var parsed := BulkOps.ParseBulk(parse, body);
    if parsed.Err? {
      return Err(BulkOps.Refused(parsed.error)), d;
    }
    var items := parsed.value;
    var prepared := [];
    for i := 0 to |items|
      invariant prepared == PrepareAll(prepare, items[..i])
    {
      PrepareNext(prepare, items[..i], items[i]);
      assert items[..i + 1] == items[..i] + [items[i]];
      prepared := prepared + [prepare(items[i])];
    }
    assert items[..|items|] == items;
    var lines;
    lines, d := Ingest(FLUSH_THRESHOLD, BYTE_FLUSH_THRESHOLD, admit, sink, prepared);
    r := Ok(lines);
    FinishedIsSimple(admit, sink, d);
  }

  lemma FinishedIsSimple(admit: nat -> bool, sink: Sink, d: State)
    requires Finished(admit, sink, d)
    ensures forall each | BatchWise(sink, each) :: d.lines == Simple(admit, each, Lost(admit, sink, d.log), d.items)
  {
    hide Finished, Simple, BatchWise, Lost;
    forall each | BatchWise(sink, each)
      ensures d.lines == Simple(admit, each, Lost(admit, sink, d.log), d.items)
    {
      EqualsSimple(admit, sink, each, d);
    }
  }

  /** `ingest_bulk_streamed`, over any frames. Operations read before the stream ends
      badly have been dispatched, or wait in a buffer that is dropped. */
  method IngestStreamed(parse: BulkOps.Parser, prepare: Prepare, admit: nat -> bool, sink: Sink,
                        frames: seq<Ndjson.Frame>)
    returns (r: Answer, ghost d: State)
    ensures var read := BulkOps.StreamOps(parse, Ndjson.MAX_LINE_BYTES, Ndjson.Stream(frames, [], false, false));
            && d.items == PrepareAll(prepare, read.items)
            && (if read.stop == BulkOps.AllRead then r == Ok(d.lines) && Finished(admit, sink, d)
                     && FlushedWhenFull(FLUSH_THRESHOLD, BYTE_FLUSH_THRESHOLD, d.log)
                else r == Err(read.stop) && Kept(admit, sink, d)
                     && AllFull(FLUSH_THRESHOLD, BYTE_FLUSH_THRESHOLD, d.log))
    ensures var body := Ndjson.Content(frames);
            Ndjson.Sound(frames) && Ndjson.Capped(Ndjson.MAX_LINE_BYTES, body) ==>
              forall each | BatchWise(sink, each) ::
                r == StreamedAnswer(parse, prepare, admit, each, Lost(admit, sink, d.log), body)
  {
    hide Kept, Bounded, BatchWise, PrepareAll, StreamedAnswer, Finished, AllFull, FlushedWhenFull, Lost;
    hide BulkOps.TakeOp, Ndjson.Rest, Ndjson.Capped, Ndjson.Framed;
    var reader := new Ndjson.Reader(Ndjson.MAX_LINE_BYTES, frames);
    var demux := new Demux(FLUSH_THRESHOLD, BYTE_FLUSH_THRESHOLD, admit, sink);
    ghost var read, items := BulkOps.StreamOps(parse, reader.cap, reader.Model()), [];
    assert read == BulkOps.After([], read);
    NothingPrepared(prepare);
    while true
      invariant fresh(reader) && fresh(demux) && reader.Resumable() && demux.Valid()
      invariant demux.admit == admit && demux.sink == sink && reader.cap == Ndjson.MAX_LINE_BYTES
      invariant demux.countLimit == FLUSH_THRESHOLD && demux.byteLimit == BYTE_FLUSH_THRESHOLD
      invariant read == BulkOps.After(items, BulkOps.StreamOps(parse, reader.cap, reader.Model()))
      invariant demux.items == PrepareAll(prepare, items)
      decreases |Ndjson.Rest(reader.Model())|
    {
      var item, stop;
      BulkOps.OpShrinks(parse, reader.cap, reader.Model());
      item, stop := BulkOps.NextOp(parse, reader);
      if item.None? {
        assert items + [] == items;
        if stop == BulkOps.AllRead {
          demux.FlushRemaining();
          r := Ok(demux.lines);
        } else {
          r := Err(stop);
        }
        d := demux.Model();
        AnswersStream(parse, prepare, admit, sink, frames, read, d, r);
        return;
      }
      demux.Accept(prepare(item.value));
      PrepareNext(prepare, items, item.value);
      BulkOps.OneMore(items, item.value, BulkOps.StreamOps(parse, reader.cap, reader.Model()));
      items := items + [item.value];
    }
  }

  lemma NothingPrepared(prepare: Prepare)
    ensures PrepareAll(prepare, []) == []
  {
  }

  lemma AnswersStream(parse: BulkOps.Parser, prepare: Prepare, admit: nat -> bool, sink: Sink,
                      frames: seq<Ndjson.Frame>, read: BulkOps.Read, d: State, r: Answer)
    requires read == BulkOps.StreamOps(parse, Ndjson.MAX_LINE_BYTES, Ndjson.Stream(frames, [], false, false))
    requires Kept(admit, sink, d) && d.items == PrepareAll(prepare, read.items)
    requires if read.stop == BulkOps.AllRead then d.buffers == map[] && r == Ok(d.lines) else r == Err(read.stop)
    ensures read.stop == BulkOps.AllRead ==> Finished(admit, sink, d)
    ensures var body := Ndjson.Content(frames);
            Ndjson.Sound(frames) && Ndjson.Capped(Ndjson.MAX_LINE_BYTES, body) ==>
              forall each | BatchWise(sink, each) ::
                r == StreamedAnswer(parse, prepare, admit, each, Lost(admit, sink, d.log), body)
  {
    hide Kept, Simple, BatchWise, BulkOps.OpsOf, BulkOps.StreamOps, Ndjson.Framed, Ndjson.Unterminated, Lost;
    hide Ndjson.Capped;
    if Ndjson.Sound(frames) && Ndjson.Capped(Ndjson.MAX_LINE_BYTES, Ndjson.Content(frames)) {
      BulkOps.FramesDoNotMatter(parse, Ndjson.MAX_LINE_BYTES, frames);
    }
    if read.stop == BulkOps.AllRead {
      FinishedIsSimple(admit, sink, d);
    }
  }

  // ---------- the two paths agree ----------

  /** An operation applied on its own answers the same with or without one carriage
      return at the end of its source. */
  ghost predicate BlindToCr(prepare: Prepare, admit: nat -> bool, each: Entry -> OpResult, lost: set<nat>) {
    forall i, a, b | BulkOps.SameOp(a, b) ::
      SimpleLine(admit, each, lost, i, prepare(a)) == SimpleLine(admit, each, lost, i, prepare(b))
  }

  /** However a body is cut into frames, the streamed path answers as the buffered one
      does if and only if its last line is ended by a newline, or parsing stops at a bad
      line before that. */
  lemma StreamedAnswersIff(fits: JsonValue.Numbers, parse: BulkOps.Parser, prepare: Prepare, admit: nat -> bool,
                           each: Entry -> OpResult, lost: set<nat>, body: bytes)
    requires BulkOps.Parses(fits, parse) && BlindToCr(prepare, admit, each, lost)
    ensures StreamedAnswer(parse, prepare, admit, each, lost, body)
            == BufferedAnswer(parse, prepare, admit, each, lost, body)
            <==> !Ndjson.Unterminated(body) || BulkOps.OpsOf(parse, Ndjson.Framed(body)).stop.Bad?
  {
    hide BulkOps.Parses, BulkOps.OpsOf, BulkOps.SameOp, Ndjson.Framed, Ndjson.NonBlank, Ndjson.Unterminated, SimpleLine;
    BulkOps.StreamedIsBuffered(fits, parse, body);
    var a, b := BulkOps.OpsOf(parse, Ndjson.Framed(body)), BulkOps.OpsOf(parse, Ndjson.NonBlank(body));
    forall i | 0 <= i < |a.items|
      ensures SimpleLine(admit, each, lost, i, prepare(a.items[i]))
              == SimpleLine(admit, each, lost, i, prepare(b.items[i]))
    {
      assert BulkOps.SameOp(a.items[i], b.items[i]);
    }
    assert Simple(admit, each, lost, PrepareAll(prepare, a.items))
        == Simple(admit, each, lost, PrepareAll(prepare, b.items));
  }
}
