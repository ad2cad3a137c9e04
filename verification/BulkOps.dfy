/**
  The operations of a `_bulk` body: action lines, each followed by a source line unless
  it deletes. The buffered parser and the streaming reader are held to one another.
*/
module BulkOps {
  import opened Bytes
  import opened JsonValue
  import opened JsonParse
  import opened Ndjson
  import JsonParser
  import JsonScan
  import JsonSound

  datatype Action = Index | Create | Update | Delete

  predicate HasSource(a: Action) {
    !a.Delete?
  }

  datatype Parsed = Parsed(action: Action, index: Option<bytes>, id: Option<bytes>, routing: Option<bytes>,
                           concurrencyControl: bool)

  datatype BulkItem = BulkItem(parsed: Parsed, source: Option<bytes>)

  datatype RewriteError = InvalidJson | MalformedBulkAction

  const INDEX: bytes := [0x69, 0x6E, 0x64, 0x65, 0x78]
  const CREATE: bytes := [0x63, 0x72, 0x65, 0x61, 0x74, 0x65]
  const UPDATE: bytes := [0x75, 0x70, 0x64, 0x61, 0x74, 0x65]
  const DELETE: bytes := [0x64, 0x65, 0x6C, 0x65, 0x74, 0x65]
  const META_INDEX: bytes := [0x5F, 0x69, 0x6E, 0x64, 0x65, 0x78]
  const META_ID: bytes := [0x5F, 0x69, 0x64]
  const ROUTING: bytes := [0x72, 0x6F, 0x75, 0x74, 0x69, 0x6E, 0x67]
  const VERSION: bytes := [0x76, 0x65, 0x72, 0x73, 0x69, 0x6F, 0x6E]
  const VERSION_TYPE: bytes := [0x76, 0x65, 0x72, 0x73, 0x69, 0x6F, 0x6E, 0x5F, 0x74, 0x79, 0x70, 0x65]
  const IF_SEQ_NO: bytes := [0x69, 0x66, 0x5F, 0x73, 0x65, 0x71, 0x5F, 0x6E, 0x6F]
  const IF_PRIMARY_TERM: bytes :=
    [0x69, 0x66, 0x5F, 0x70, 0x72, 0x69, 0x6D, 0x61, 0x72, 0x79, 0x5F, 0x74, 0x65, 0x72, 0x6D]

  function Verb(name: bytes): Option<Action> {
    if name == INDEX then Some(Index)
    else if name == CREATE then Some(Create)
    else if name == UPDATE then Some(Update)
    else if name == DELETE then Some(Delete)
    else None
  }

  predicate HasField(j: JV, name: bytes) {
    j.JObj? && name in j.fields
  }

  function StrField(j: JV, name: bytes): Option<bytes> {
    if HasField(j, name) && j.fields[name].JStr? then Some(j.fields[name].s) else None
  }

  /** Lenient: metadata of the wrong shape has no fields. */
  function MetaOf(a: Action, meta: JV): Parsed {
    Parsed(a, StrField(meta, META_INDEX), StrField(meta, META_ID), StrField(meta, ROUTING),
           HasField(meta, IF_SEQ_NO) || HasField(meta, IF_PRIMARY_TERM)
           || HasField(meta, VERSION) || HasField(meta, VERSION_TYPE))
  }

  /** An action line's value: one member, named by a verb. */
  ghost function ActionOf(j: JV): Result<Parsed, RewriteError> {
    if j.JObj? && |j.fields| == 1 then
      var name :| name in j.fields;
      match Verb(name)
      case None => Err(MalformedBulkAction)
      case Some(a) => Ok(MetaOf(a, j.fields[name]))
    else Err(MalformedBulkAction)
  }

  ghost function ParseAction(fits: Numbers, line: bytes): Result<Parsed, RewriteError> {
    match Parse(fits, line)
    case None => Err(InvalidJson)
    case Some(j) => ActionOf(j)
  }

  /** An action line says nothing but its one verb: the choice above is no choice. */
  lemma ActionIsVerb(name: bytes, meta: JV)
    ensures ActionOf(JObj(map[name := meta])) ==
            match Verb(name) case None => Err(MalformedBulkAction) case Some(a) => Ok(MetaOf(a, meta))
  {
    assert |map[name := meta]| == 1;
  }

  /** The word an action line opens with. */
  function Word(a: Action): bytes {
    match a
    case Index => Ascii("index")
    case Create => Ascii("create")
    case Update => Ascii("update")
    case Delete => Ascii("delete")
  }

  lemma VerbIff(name: bytes, a: Action)
    ensures Verb(name) == Some(a) <==> name == Word(a)
  {
    assert Ascii("index") == INDEX && Ascii("create") == CREATE;
    assert Ascii("update") == UPDATE && Ascii("delete") == DELETE;
  }

  /** The metadata field `name` holds this string, or no string at all. */
  predicate Holds(meta: JV, name: bytes, value: Option<bytes>) {
    match value
    case Some(s) => meta.JObj? && name in meta.fields && meta.fields[name] == JStr(s)
    case None => meta.JObj? && name in meta.fields ==> !meta.fields[name].JStr?
  }

  /** What the metadata of an action line says. */
  predicate Describes(meta: JV, p: Parsed) {
    && Holds(meta, Ascii("_index"), p.index) && Holds(meta, Ascii("_id"), p.id)
    && Holds(meta, Ascii("routing"), p.routing)
    && (p.concurrencyControl <==>
          meta.JObj? && (|| Ascii("if_seq_no") in meta.fields || Ascii("if_primary_term") in meta.fields
                         || Ascii("version") in meta.fields || Ascii("version_type") in meta.fields))
  }

  lemma MetaDescribes(a: Action, meta: JV)
    ensures Describes(meta, MetaOf(a, meta)) && MetaOf(a, meta).action == a
  {
    hide Ascii;
    FieldNames();
  }

  lemma FieldNames()
    ensures Ascii("_index") == META_INDEX && Ascii("_id") == META_ID && Ascii("routing") == ROUTING
    ensures Ascii("if_seq_no") == IF_SEQ_NO && Ascii("if_primary_term") == IF_PRIMARY_TERM
    ensures Ascii("version") == VERSION && Ascii("version_type") == VERSION_TYPE
  {
  }

  lemma DescribedOnce(meta: JV, p: Parsed, q: Parsed)
    requires Describes(meta, p) && Describes(meta, q) && p.action == q.action
    ensures p == q
  {
    hide Ascii;
  }

  /** An action line is one member, whose name is the word of its action and whose value
      says the rest. Any other value is malformed, and any other line is not JSON. */
  lemma ActionLineIff(fits: Numbers, line: bytes, p: Parsed)
    ensures ParseAction(fits, line) == Ok(p) <==>
              exists meta :: Parse(fits, line) == Some(JObj(map[Word(p.action) := meta])) && Describes(meta, p)
    ensures ParseAction(fits, line) == Err(InvalidJson) <==> Parse(fits, line).None?
  {
    hide Parse, Word, Describes, MetaOf, Verb;
    if Parse(fits, line).Some? {
      var j := Parse(fits, line).value;
      if exists meta :: j == JObj(map[Word(p.action) := meta]) && Describes(meta, p) {
        var meta :| j == JObj(map[Word(p.action) := meta]) && Describes(meta, p);
        ActionIsVerb(Word(p.action), meta);
        VerbIff(Word(p.action), p.action);
        MetaDescribes(p.action, meta);
        DescribedOnce(meta, p, MetaOf(p.action, meta));
      }
      if ActionOf(j) == Ok(p) {
        OneMemberIs(j);
        var name, meta :| j == JObj(map[name := meta]);
        ActionIsVerb(name, meta);
        var a := Verb(name).value;
        VerbIff(name, a);
        MetaDescribes(a, meta);
      }
    }
  }

  lemma OneMemberIs(j: JV)
    requires j.JObj? && |j.fields| == 1
    ensures exists name, meta :: j == JObj(map[name := meta])
  {
    var keys := j.fields.Keys;
    assert |j.fields| == |keys|;
    var name :| name in keys;
    assert |keys - {name}| == 0;
    assert keys == {name} + (keys - {name});
    assert j.fields == map[name := j.fields[name]];
  }

  // ---------- operations ----------

  /** Why parsing stopped. A source line that is missing is told apart, because a
      stream asks for it. */
  datatype Stop = Done | Bad(error: RewriteError) | NoSource

  datatype Ops = Ops(items: seq<BulkItem>, stop: Stop)

  type Parser = bytes -> Result<Parsed, RewriteError>

  ghost predicate Parses(fits: Numbers, parse: Parser) {
    forall line :: parse(line) == ParseAction(fits, line)
  }

  function Cons(item: BulkItem, ops: Ops): Ops {
    Ops([item] + ops.items, ops.stop)
  }

  function OpsOf(parse: Parser, lines: seq<bytes>): Ops
    decreases |lines|
  {
    if lines == [] then Ops([], Done)
    else
      match parse(lines[0])
      case Err(e) => Ops([], Bad(e))
      case Ok(p) =>
        if !HasSource(p.action) then Cons(BulkItem(p, None), OpsOf(parse, lines[1..]))
        else if |lines| == 1 then Ops([], NoSource)
        else if !JsonScan.ValidDocument(lines[1]) then Ops([], Bad(InvalidJson))
        else Cons(BulkItem(p, Some(lines[1])), OpsOf(parse, lines[2..]))
  }

  function Buffered(ops: Ops): Result<seq<BulkItem>, RewriteError> {
    match ops.stop
    case Done => Ok(ops.items)
    case Bad(e) => Err(e)
    case NoSource => Err(MalformedBulkAction)
  }

  function Prepend(items: seq<BulkItem>, ops: Ops): Ops {
    Ops(items + ops.items, ops.stop)
  }

  /** `parse_bulk`. */
  method ParseBulk(parse: Parser, body: bytes) returns (r: Result<seq<BulkItem>, RewriteError>)
    ensures r == Buffered(OpsOf(parse, NonBlank(body)))
  {
    hide JsonScan.ValidDocument, NonBlank;
    var lines := NonBlankLines(body);
    var items := [];
    var i := 0;
    assert lines[0..] == lines;
    assert [] + OpsOf(parse, lines).items == OpsOf(parse, lines).items;
    while i < |lines|
      invariant i <= |lines|
      invariant OpsOf(parse, lines) == Prepend(items, OpsOf(parse, lines[i..]))
    {
      Unfold(parse, lines, i, items);
      var p := parse(lines[i]);
      if p.Err? {
        return Err(p.error);
      }
      if !HasSource(p.value.action) {
        items := items + [BulkItem(p.value, None)];
        i := i + 1;
      } else {
        if i + 1 == |lines| {
          return Err(MalformedBulkAction);
        }
        var ok := JsonParser.Validate(lines[i + 1]);
        if !ok {
          return Err(InvalidJson);
        }
        items := items + [BulkItem(p.value, Some(lines[i + 1]))];
        i := i + 2;
      }
    }
    assert items + [] == items;
    r := Ok(items);
  }

  lemma Unfold(parse: Parser, lines: seq<bytes>, i: nat, items: seq<BulkItem>)
    requires i < |lines|
    ensures var p := parse(lines[i]);
            Prepend(items, OpsOf(parse, lines[i..])) ==
            if p.Err? then Ops(items, Bad(p.error))
            else if !HasSource(p.value.action) then
              Prepend(items + [BulkItem(p.value, None)], OpsOf(parse, lines[i + 1..]))
            else if i + 1 == |lines| then Ops(items, NoSource)
            else if !JsonScan.ValidDocument(lines[i + 1]) then Ops(items, Bad(InvalidJson))
            else Prepend(items + [BulkItem(p.value, Some(lines[i + 1]))], OpsOf(parse, lines[i + 2..]))
  {
    hide JsonScan.ValidDocument;
    var rest := lines[i..];
    assert rest[0] == lines[i] && rest[1..] == lines[i + 1..];
    assert items + [] == items;
    var p := parse(lines[i]);
    if p.Ok? {
      if !HasSource(p.value.action) {
        var t := OpsOf(parse, lines[i + 1..]);
        assert items + ([BulkItem(p.value, None)] + t.items) == items + [BulkItem(p.value, None)] + t.items;
      } else if i + 1 < |lines| {
        assert rest[1] == lines[i + 1] && rest[2..] == lines[i + 2..];
        var t := OpsOf(parse, lines[i + 2..]);
        var item := BulkItem(p.value, Some(lines[i + 1]));
        assert items + ([item] + t.items) == items + [item] + t.items;
      }
    }
  }

  // ---------- what the lines say ----------

  /** The lines of one operation: its action line, and its source unless it deletes. */
  predicate Spells(parse: Parser, item: BulkItem, lines: seq<bytes>) {
    && lines != [] && parse(lines[0]) == Ok(item.parsed)
    && (if item.parsed.action == Delete then item.source == None && |lines| == 1
        else |lines| == 2 && item.source == Some(lines[1]) && JsonScan.ValidDocument(lines[1]))
  }

  /** The lines spell these operations, one after the other. */
  predicate SpellsAll(parse: Parser, items: seq<BulkItem>, lines: seq<bytes>)
    decreases |items|
  {
    if items == [] then lines == []
    else
      var n := if items[0].source.Some? then 2 else 1;
      n <= |lines| && Spells(parse, items[0], lines[..n]) && SpellsAll(parse, items[1..], lines[n..])
  }

  /** Why no operation can be read off the front of these lines. */
  predicate Stuck(parse: Parser, lines: seq<bytes>, stop: Stop) {
    if lines == [] then stop == Done
    else if parse(lines[0]).Err? then stop == Bad(parse(lines[0]).error)
    else
      && parse(lines[0]).value.action != Delete
      && (if |lines| == 1 then stop == NoSource
          else !JsonScan.ValidDocument(lines[1]) && stop == Bad(InvalidJson))
  }

  lemma FirstIsSpelled(parse: Parser, lines: seq<bytes>)
    ensures var ops := OpsOf(parse, lines);
            if ops.items == [] then Stuck(parse, lines, ops.stop)
            else
              var k := if ops.items[0].source.Some? then 2 else 1;
              && k <= |lines| && Spells(parse, ops.items[0], lines[..k])
              && ops.items[1..] == OpsOf(parse, lines[k..]).items && ops.stop == OpsOf(parse, lines[k..]).stop
  {
    hide JsonScan.ValidDocument;
    var ops := OpsOf(parse, lines);
    if ops.items != [] {
      hide Stuck;
      var k := if ops.items[0].source.Some? then 2 else 1;
      assert lines[..k][0] == lines[0] && (k == 2 ==> lines[..k][1] == lines[1]);
      assert ops == Cons(ops.items[0], OpsOf(parse, lines[k..]));
    }
  }

  lemma {:induction false} OpsAreSpelled(parse: Parser, lines: seq<bytes>) returns (n: nat)
    ensures var ops := OpsOf(parse, lines);
            n <= |lines| && SpellsAll(parse, ops.items, lines[..n]) && Stuck(parse, lines[n..], ops.stop)
    decreases |lines|
  {
    hide Stuck, Spells, OpsOf;
    FirstIsSpelled(parse, lines);
    var ops := OpsOf(parse, lines);
    n := 0;
    assert lines[..0] == [] && lines[0..] == lines;
    if ops.items != [] {
      var k := if ops.items[0].source.Some? then 2 else 1;
      var m := OpsAreSpelled(parse, lines[k..]);
      n := k + m;
      Slices(lines, n, k);
    }
  }

  lemma SpelledFirst(parse: Parser, item: BulkItem, lines: seq<bytes>, k: nat)
    requires k <= |lines| && Spells(parse, item, lines[..k])
    ensures OpsOf(parse, lines) == Cons(item, OpsOf(parse, lines[k..]))
  {
    hide JsonScan.ValidDocument;
    assert lines[..k][0] == lines[0];
    if k == 2 {
      assert lines[..k][1] == lines[1];
    }
  }

  lemma Slices(lines: seq<bytes>, n: nat, k: nat)
    requires k <= n <= |lines|
    ensures lines[..n][..k] == lines[..k] && lines[..n][k..] == lines[k..][..n - k] && lines[k..][n - k..] == lines[n..]
  {
  }

  lemma {:induction false} SpelledAreOps(parse: Parser, items: seq<BulkItem>, lines: seq<bytes>, n: nat, stop: Stop)
    requires n <= |lines| && SpellsAll(parse, items, lines[..n]) && Stuck(parse, lines[n..], stop)
    ensures OpsOf(parse, lines) == Ops(items, stop)
    decreases |items|
  {
    hide Stuck, Spells;
    if items == [] {
      assert lines[n..] == lines;
      StuckIsEnd(parse, lines, stop);
    } else {
      hide OpsOf;
      var k := if items[0].source.Some? then 2 else 1;
      Slices(lines, n, k);
      SpelledFirst(parse, items[0], lines, k);
      var rest := items[1..];
      assert SpellsAll(parse, rest, lines[..n][k..]);
      hide SpellsAll;
      SpelledAreOps(parse, rest, lines[k..], n - k, stop);
      assert items == [items[0]] + rest;
    }
  }

  lemma StuckIsEnd(parse: Parser, lines: seq<bytes>, stop: Stop)
    requires Stuck(parse, lines, stop)
    ensures OpsOf(parse, lines) == Ops([], stop)
  {
    hide JsonScan.ValidDocument;
  }

  /** Parsing reads off the operations that the lines spell, up to the first place where
      none can be read. It succeeds exactly when all lines are used up; a missing source
      is a malformed action, and any other failure is that of the bad line. */
  lemma ParsedIff(parse: Parser, lines: seq<bytes>, items: seq<BulkItem>, e: RewriteError)
    ensures Buffered(OpsOf(parse, lines)) == Ok(items) <==> SpellsAll(parse, items, lines)
    ensures Buffered(OpsOf(parse, lines)) == Err(e) <==>
              exists n, done, stop :: 0 <= n <= |lines| && SpellsAll(parse, done, lines[..n])
                                      && Stuck(parse, lines[n..], stop)
                                      && (stop == Bad(e) || (stop == NoSource && e == MalformedBulkAction))
  {
    hide OpsOf, SpellsAll, Stuck;
    var ops := OpsOf(parse, lines);
    var n := OpsAreSpelled(parse, lines);
    StuckEnds(parse, lines[n..], ops.stop);
    assert lines[..|lines|] == lines && lines[|lines|..] == [];
    StuckEnds(parse, [], Done);
    if SpellsAll(parse, items, lines) {
      SpelledAreOps(parse, items, lines, |lines|, Done);
    }
    if exists n, done, stop :: 0 <= n <= |lines| && SpellsAll(parse, done, lines[..n]) && Stuck(parse, lines[n..], stop)
                               && (stop == Bad(e) || (stop == NoSource && e == MalformedBulkAction)) {
      var m, done, stop :| 0 <= m <= |lines| && SpellsAll(parse, done, lines[..m]) && Stuck(parse, lines[m..], stop)
                           && (stop == Bad(e) || (stop == NoSource && e == MalformedBulkAction));
      SpelledAreOps(parse, done, lines, m, stop);
    }
  }

  lemma StuckEnds(parse: Parser, lines: seq<bytes>, stop: Stop)
    requires Stuck(parse, lines, stop) || (lines == [] && stop == Done)
    ensures stop == Done <==> lines == []
    ensures Stuck(parse, lines, stop)
  {
    hide JsonScan.ValidDocument;
  }

  // ---------- the stream ----------

  datatype StreamStop = AllRead | Refused(error: RewriteError) | Oversized | Failed | Panicked

  /** The lines a stream still has to give, and whether its last one is unterminated. */
  predicate Facing(cap: nat, s: Stream, left: seq<bytes>, open: bool) {
    if s.spent then left == [] && open
    else Readable(cap, s) && Framed(Rest(s)) == left && Unterminated(Rest(s)) == open
  }

  lemma LineTaken(cap: nat, s: Stream, left: seq<bytes>, open: bool)
    requires Facing(cap, s, left, open)
    ensures var (r, t) := NextLine(cap, s);
            if left == [] then r == (if s.spent then Fault else End) && s.spent == open
            else r == Line(left[0]) && Facing(cap, t, left[1..], open)
  {
    hide Framed, Unterminated, NextLine;
    if s.spent {
      SpentFaults(cap, s);
    } else {
      LastFramed(Rest(s));
      NextLineFrames(cap, s);
    }
  }

  function Reason(r: LineResult): StreamStop
    requires !r.Line?
  {
    match r
    case End => AllRead
    case TooLarge => Oversized
    case StreamFailed => Failed
    case Fault => Panicked
  }

  /** An operation taken off a stream, or why there is none, and the stream after it. */
  datatype Taken = Taken(item: Option<BulkItem>, stop: StreamStop, rest: Stream)

  function TakeOp(parse: Parser, cap: nat, s: Stream): Taken {
    var (action, t) := NextLine(cap, s);
    if !action.Line? then Taken(None, Reason(action), t)
    else
      match parse(action.line)
      case Err(e) => Taken(None, Refused(e), t)
      case Ok(p) =>
        if !HasSource(p.action) then Taken(Some(BulkItem(p, None)), AllRead, t)
        else
          var (source, u) := NextLine(cap, t);
          if source.End? then Taken(None, Refused(MalformedBulkAction), u)
          else if !source.Line? then Taken(None, Reason(source), u)
          else if JsonScan.ValidDocument(source.line) then Taken(Some(BulkItem(p, Some(source.line))), AllRead, u)
          else Taken(None, Refused(InvalidJson), u)
  }

  lemma OpShrinks(parse: Parser, cap: nat, s: Stream)
    ensures TakeOp(parse, cap, s).item.Some? ==> |Rest(TakeOp(parse, cap, s).rest)| < |Rest(s)|
  {
    hide JsonScan.ValidDocument, NextLine, Rest;
    LineShrinks(cap, s);
    LineShrinks(cap, NextLine(cap, s).1);
  }

  /** All the operations of a stream, and why it ended. */
  datatype Read = Read(items: seq<BulkItem>, stop: StreamStop)

  function StreamOps(parse: Parser, cap: nat, s: Stream): Read
    decreases |Rest(s)|
  {
    OpShrinks(parse, cap, s);
    var t := TakeOp(parse, cap, s);
    match t.item
    case None => Read([], t.stop)
    case Some(item) =>
      var r := StreamOps(parse, cap, t.rest);
      Read([item] + r.items, r.stop)
  }

  /** One call of `next_op`: an operation, or why there is none. */
  method NextOp(parse: Parser, reader: Reader) returns (item: Option<BulkItem>, stop: StreamStop)
    requires reader.Resumable()
    modifies reader
    ensures reader.Resumable() && Taken(item, stop, reader.Model()) == TakeOp(parse, reader.cap, old(reader.Model()))
  {
    hide JsonScan.ValidDocument, NextLine;
    item, stop := None, AllRead;
    var first := reader.Next();
    match first
    case End =>
    case TooLarge => stop := Oversized;
    case StreamFailed => stop := Failed;
    case Fault => stop := Panicked;
    case Line(action) =>
      var p := parse(action);
      if p.Err? {
        stop := Refused(p.error);
        return;
      }
      if !HasSource(p.value.action) {
        item := Some(BulkItem(p.value, None));
        return;
      }
      var second := reader.Next();
      match second
      case End => stop := Refused(MalformedBulkAction);
      case TooLarge => stop := Oversized;
      case StreamFailed => stop := Failed;
      case Fault => stop := Panicked;
      case Line(source) =>
        var ok := JsonParser.Validate(source);
        if ok {
          item := Some(BulkItem(p.value, Some(source)));
        } else {
          stop := Refused(InvalidJson);
        }
  }

  /** Reads every operation of a stream, as `next_op` yields them one by one. */
  method ReadOps(parse: Parser, reader: Reader) returns (items: seq<BulkItem>, stop: StreamStop)
    requires reader.Resumable()
    modifies reader
    ensures Read(items, stop) == StreamOps(parse, reader.cap, old(reader.Model()))
  {
    hide TakeOp, Rest;
    ghost var all := StreamOps(parse, reader.cap, reader.Model());
    items := [];
    assert all == After(items, all);
    while true
      invariant reader.Resumable() && all == After(items, StreamOps(parse, reader.cap, reader.Model()))
      decreases |Rest(reader.Model())|
    {
      ghost var s, was := reader.Model(), items;
      OpShrinks(parse, reader.cap, s);
      var item;
      item, stop := NextOp(parse, reader);
      if item.None? {
        assert items + [] == items;
        return;
      }
      items := items + [item.value];
      OneMore(was, item.value, StreamOps(parse, reader.cap, reader.Model()));
    }
  }

  function After(items: seq<BulkItem>, r: Read): Read {
    Read(items + r.items, r.stop)
  }

  lemma OneMore(items: seq<BulkItem>, item: BulkItem, r: Read)
    ensures After(items, Read([item] + r.items, r.stop)) == After(items + [item], r)
  {
    assert items + ([item] + r.items) == items + [item] + r.items;
  }

  /** Off a stream that does not fail, one operation is one operation off its lines. */
  lemma TakeOpFacing(parse: Parser, cap: nat, s: Stream, left: seq<bytes>, open: bool) returns (rest: seq<bytes>)
    requires Facing(cap, s, left, open)
    ensures var t := TakeOp(parse, cap, s);
            if t.item.Some? then
              |rest| < |left| && OpsOf(parse, left) == Cons(t.item.value, OpsOf(parse, rest))
              && Facing(cap, t.rest, rest, open)
            else OpsOf(parse, left).items == [] && t.stop == EndOf(open, OpsOf(parse, left))
  {
    hide JsonScan.ValidDocument, NextLine, Facing;
    rest := left;
    LineTaken(cap, s, left, open);
    if left != [] {
      var p := parse(left[0]);
      if p.Ok? && HasSource(p.value.action) {
        LineTaken(cap, NextLine(cap, s).1, left[1..], open);
        rest := if |left| > 1 then left[2..] else left;
        assert |left| > 1 ==> left[1..][1..] == left[2..];
      } else {
        rest := left[1..];
      }
    }
  }

  /** A stream that does not fail yields the operations of its framed lines. */
  lemma {:induction false} StreamIsLines(parse: Parser, cap: nat, s: Stream, left: seq<bytes>, open: bool)
    requires Facing(cap, s, left, open)
    ensures var ops := OpsOf(parse, left); StreamOps(parse, cap, s) == Read(ops.items, EndOf(open, ops))
    decreases |left|
  {
    hide TakeOp, Facing, OpsOf, Rest;
    var rest := TakeOpFacing(parse, cap, s, left, open);
    OpShrinks(parse, cap, s);
    var t := TakeOp(parse, cap, s);
    if t.item.Some? {
      StreamIsLines(parse, cap, t.rest, rest, open);
    }
  }

  /** However a body is cut into frames, its operations are those of its framed lines, if
      no frame is broken and no line is over the cap. */
  lemma FramesDoNotMatter(parse: Parser, cap: nat, frames: seq<Frame>)
    requires Sound(frames) && Capped(cap, Content(frames))
    ensures var body := Content(frames);
            var ops := OpsOf(parse, Framed(body));
            StreamOps(parse, cap, Stream(frames, [], false, false)) == Read(ops.items, EndOf(Unterminated(body), ops))
  {
    hide Framed, Unterminated, OpsOf, StreamOps, Capped;
    assert [] + Content(frames) == Content(frames);
    StreamIsLines(parse, cap, Stream(frames, [], false, false), Framed(Content(frames)), Unterminated(Content(frames)));
  }

  lemma SpentFaults(cap: nat, s: Stream)
    requires s.spent
    ensures NextLine(cap, s) == (Fault, s)
  {
  }

  /** How a stream ends. Once a line that no newline ends has been taken, the next read
      is out of range: asking for its source, or for another operation. */
  function EndOf(open: bool, ops: Ops): StreamStop {
    match ops.stop
    case Bad(e) => Refused(e)
    case Done => if open then Panicked else AllRead
    case NoSource => if open then Panicked else Refused(MalformedBulkAction)
  }

  // ---------- the two agree ----------

  /** The same operation, but for one carriage return at the end of its source. */
  predicate SameOp(a: BulkItem, b: BulkItem) {
    a.parsed == b.parsed
    && match b.source
       case None => a.source == None
       case Some(s) => a.source == Some(s) || a.source == Some(TrimCr(s))
  }

  predicate SameOps(a: Ops, b: Ops) {
    a.stop == b.stop && |a.items| == |b.items| && forall i | 0 <= i < |a.items| :: SameOp(a.items[i], b.items[i])
  }

  predicate Trimmed(a: seq<bytes>, b: seq<bytes>) {
    |a| == |b| && forall i | 0 <= i < |a| :: a[i] == b[i] || a[i] == TrimCr(b[i])
  }

  /** A carriage return before the newline is whitespace to the parsers. */
  lemma TrimParses(fits: Numbers, parse: Parser, line: bytes)
    requires Parses(fits, parse)
    ensures parse(TrimCr(line)) == parse(line) && Parse(fits, TrimCr(line)) == Parse(fits, line)
    ensures JsonScan.ValidDocument(TrimCr(line)) == JsonScan.ValidDocument(line)
  {
    hide Parse, JsonScan.ValidDocument, ActionOf, JsonSound.IsDocument;
    JsonSound.ValidIffDocument(line);
    JsonSound.ValidIffDocument(TrimCr(line));
    if TrimCr(line) != line {
      assert line == TrimCr(line) + [CARRIAGE_RETURN];
      TrailingWs(fits, TrimCr(line), CARRIAGE_RETURN);
    }
  }

  lemma {:induction false} TrimmedOps(fits: Numbers, parse: Parser, a: seq<bytes>, b: seq<bytes>)
    requires Parses(fits, parse) && Trimmed(a, b)
    ensures SameOps(OpsOf(parse, a), OpsOf(parse, b))
    decreases |a|
  {
    hide Parses, JsonScan.ValidDocument, TrimCr;
    if a != [] {
      TrimParses(fits, parse, b[0]);
      var p := parse(b[0]);
      if p.Ok? && !HasSource(p.value.action) {
        TrimmedOps(fits, parse, a[1..], b[1..]);
        ConsSame(BulkItem(p.value, None), OpsOf(parse, a[1..]), BulkItem(p.value, None), OpsOf(parse, b[1..]));
      } else if p.Ok? && |a| > 1 {
        TrimParses(fits, parse, b[1]);
        if JsonScan.ValidDocument(b[1]) {
          TrimmedOps(fits, parse, a[2..], b[2..]);
          ConsSame(BulkItem(p.value, Some(a[1])), OpsOf(parse, a[2..]), BulkItem(p.value, Some(b[1])),
                   OpsOf(parse, b[2..]));
        }
      }
    }
  }

  lemma ConsSame(x: BulkItem, a: Ops, y: BulkItem, b: Ops)
    requires SameOp(x, y) && SameOps(a, b)
    ensures SameOps(Cons(x, a), Cons(y, b))
  {
    hide TrimCr;
  }

  /** However the body is cut into frames, the stream yields the operations the
      buffered parser finds, each source less at most one trailing carriage return. */
  lemma StreamedIsBuffered(fits: Numbers, parse: Parser, body: bytes)
    requires Parses(fits, parse)
    ensures SameOps(OpsOf(parse, Framed(body)), OpsOf(parse, NonBlank(body)))
  {
    hide Parses, TrimCr, Framed, NonBlank, Unterminated, OpsOf;
    FramedIsTrimmed(body);
    TrimmedOps(fits, parse, Framed(body), NonBlank(body));
  }

  /** The stream ends as the buffered parse does exactly when every line before its end
      is ended by a newline, or parsing stops earlier at a bad line. */
  lemma SameEndIff(fits: Numbers, parse: Parser, body: bytes)
    requires Parses(fits, parse)
    ensures var ops := OpsOf(parse, Framed(body));
            (match Buffered(OpsOf(parse, NonBlank(body)))
             case Ok(_) => EndOf(Unterminated(body), ops) == AllRead
             case Err(e) => EndOf(Unterminated(body), ops) == Refused(e))
            <==> !Unterminated(body) || ops.stop.Bad?
    ensures var ops := OpsOf(parse, Framed(body));
            Unterminated(body) && !ops.stop.Bad? ==> EndOf(Unterminated(body), ops) == Panicked
  {
    hide Parses, Framed, NonBlank, Unterminated, OpsOf, SameOp;
    StreamedIsBuffered(fits, parse, body);
  }
}
