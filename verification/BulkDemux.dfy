/**
  Bulk demux: operations of one body, buffered per target, flushed when a buffer is
  full and at the end, and their results put back into the body's order.
*/
module BulkDemux {
  import opened Bytes
  import BulkOps

  type Target = bytes

  datatype DocOp = Index(body: bytes) | Create(body: bytes) | Update(body: bytes) | Delete

  datatype WriteOp = WriteOp(target: Target, epoch: nat, doc: DocOp)

  datatype Prepared = Prepared(op: WriteOp, partition: bytes, action: BulkOps.Action, logicalIndex: bytes,
                               logicalId: bytes)

  datatype ErrorType = PartitionUnresolved | PlacementMissing | TransformFailed
                     | StaleEpoch | Conflict | NotFound | Rejected | UpstreamFailed

  datatype Kind = Applied(created: bool) | Failed(error: ErrorType)

  /** One positional line of the response. */
  datatype Line = Line(action: BulkOps.Action, index: bytes, id: Option<bytes>, status: nat, kind: Kind)

  /** One operation as `prepare` leaves it: ready, or already failed. */
  type Item = Result<Prepared, Line>

  datatype Entry = Entry(ordinal: nat, p: Prepared)

  datatype OpResult = OpResult(status: nat, created: bool)

  /** The sink's answer to a batch: one ack per operation it reports on, or a failure. */
  type Sink = seq<Entry> -> Option<seq<OpResult>>

  datatype Batch = Batch(target: Target, entries: seq<Entry>)

  const FLUSH_THRESHOLD: nat := 256
  const BYTE_FLUSH_THRESHOLD: nat := 4 * 1024 * 1024

  function OpBytes(op: WriteOp): nat {
    if op.doc.Delete? then 0 else |op.doc.body|
  }

  function SumBytes(es: seq<Entry>): nat {
    if es == [] then 0 else SumBytes(es[..|es| - 1]) + OpBytes(es[|es| - 1].p.op)
  }

  // ---------- lines ----------

  function ErrorLine(p: Prepared, status: nat, error: ErrorType): Line {
    Line(p.action, p.logicalIndex, Some(p.logicalId), status, Failed(error))
  }

  function ErrorTypeFor(status: nat): ErrorType {
    if status == 409 then Conflict else if status == 404 then NotFound else Rejected
  }

  function SuccessLine(p: Prepared, r: OpResult): (l: Line)
    ensures l.action == p.action && l.index == p.logicalIndex && l.id == Some(p.logicalId) && l.status == r.status
    ensures l.kind.Failed? <==> r.status >= 400
    ensures l.kind.Applied? ==> l.kind.created == r.created
    ensures l.kind == Failed(Conflict) <==> r.status == 409
    ensures l.kind == Failed(NotFound) <==> r.status == 404
    ensures l.kind.Failed? ==> l.kind.error in {Conflict, NotFound, Rejected}
  {
    if r.status >= 400 then ErrorLine(p, r.status, ErrorTypeFor(r.status))
    else Line(p.action, p.logicalIndex, Some(p.logicalId), r.status, Applied(r.created))
  }

  /** The line of an admitted operation: by the sink's own result for it, if there is one. */
  function AckLine(p: Prepared, ack: Option<seq<OpResult>>, j: nat): Option<Line> {
    match ack
    case None => Some(ErrorLine(p, 502, UpstreamFailed))
    case Some(results) => if j < |results| then Some(SuccessLine(p, results[j])) else None
  }

  /** A line, field by field: it echoes the operation's own action, index and id. */
  predicate Reports(l: Option<Line>, p: Prepared, status: nat, kind: Kind) {
    && l.Some? && l.value.status == status && l.value.kind == kind
    && l.value.action == p.action && l.value.index == p.logicalIndex && l.value.id == Some(p.logicalId)
  }

  // ---------- the gate ----------

  function Admitted(admit: nat -> bool, es: seq<Entry>): (r: seq<Entry>)
    ensures forall e | e in r :: e in es && admit(e.ordinal)
    ensures forall e | e in es && admit(e.ordinal) :: e in r
  {
    if es == [] then []
    else
      var init := Admitted(admit, es[..|es| - 1]);
      assert es == es[..|es| - 1] + [es[|es| - 1]];
      if admit(es[|es| - 1].ordinal) then init + [es[|es| - 1]] else init
  }

  function Refused(admit: nat -> bool): nat -> bool {
    (i: nat) => !admit(i)
  }

  /** Where the `k`th entry of a flush comes among the admitted ones. */
  function Rank(admit: nat -> bool, es: seq<Entry>, k: nat): nat
    requires k <= |es|
  {
    |Admitted(admit, es[..k])|
  }

  lemma {:induction false} AdmittedPrefix(admit: nat -> bool, es: seq<Entry>, k: nat)
    requires k <= |es|
    ensures Admitted(admit, es[..k]) <= Admitted(admit, es)
    decreases |es|
  {
    if k < |es| {
      AdmittedPrefix(admit, es[..|es| - 1], k);
      assert es[..|es| - 1][..k] == es[..k];
    } else {
      assert es[..k] == es;
    }
  }

  /** An admitted entry keeps its place among the admitted ones. */
  lemma RankFinds(admit: nat -> bool, es: seq<Entry>, k: nat)
    requires k < |es| && admit(es[k].ordinal)
    ensures Rank(admit, es, k) < |Admitted(admit, es)| && Admitted(admit, es)[Rank(admit, es, k)] == es[k]
  {
    AdmittedPrefix(admit, es, k + 1);
    assert es[..k + 1][..k] == es[..k];
  }

  lemma {:induction false} RankOnto(admit: nat -> bool, es: seq<Entry>, j: nat) returns (k: nat)
    requires j < |Admitted(admit, es)|
    ensures k < |es| && admit(es[k].ordinal) && Rank(admit, es, k) == j && Admitted(admit, es)[j] == es[k]
    decreases |es|
  {
    var n := |es| - 1;
    if j < |Admitted(admit, es[..n])| {
      k := RankOnto(admit, es[..n], j);
      assert es[..n][..k] == es[..k];
    } else {
      k := n;
    }
  }

  predicate Increasing(es: seq<Entry>) {
    forall k, l | 0 <= k < l < |es| :: es[k].ordinal < es[l].ordinal
  }

  lemma {:induction false} AdmittedIncreasing(admit: nat -> bool, es: seq<Entry>)
    requires Increasing(es)
    ensures Increasing(Admitted(admit, es))
    decreases |es|
  {
    if es != [] {
      AdmittedStep(admit, es);
      hide Admitted;
      var n := |es| - 1;
      AdmittedIncreasing(admit, es[..n]);
      var init := Admitted(admit, es[..n]);
      forall j | 0 <= j < |init|
        ensures init[j].ordinal < es[n].ordinal
      {
        var k := RankOnto(admit, es[..n], j);
      }
    }
  }

  lemma AdmittedStep(admit: nat -> bool, es: seq<Entry>)
    requires es != []
    ensures var n := |es| - 1;
            Admitted(admit, es) == Admitted(admit, es[..n]) + if admit(es[n].ordinal) then [es[n]] else []
  {
  }

  /** The line the `k`th entry of a flush gets. */
  function LineFor(admit: nat -> bool, sink: Sink, es: seq<Entry>, k: nat): Option<Line>
    requires k < |es|
  {
    var e := es[k];
    if admit(e.ordinal) then AckLine(e.p, sink(Admitted(admit, es)), Rank(admit, es, k))
    else Some(ErrorLine(e.p, 409, StaleEpoch))
  }

  /** What the line of the `k`th entry of a flush has to say: held by the gate, lost with
      its batch, or the sink's own result for it, if it gave one. */
  predicate Says(admit: nat -> bool, sink: Sink, es: seq<Entry>, k: nat, l: Option<Line>)
    requires k < |es|
  {
    var p, ack, j := es[k].p, sink(Admitted(admit, es)), Rank(admit, es, k);
    if !admit(es[k].ordinal) then Reports(l, p, 409, Failed(StaleEpoch))
    else if ack.None? then Reports(l, p, 502, Failed(UpstreamFailed))
    else if j >= |ack.value| then l == None
    else
      var r := ack.value[j];
      if r.status == 409 then Reports(l, p, 409, Failed(Conflict))
      else if r.status == 404 then Reports(l, p, 404, Failed(NotFound))
      else if r.status >= 400 then Reports(l, p, r.status, Failed(Rejected))
      else Reports(l, p, r.status, Applied(r.created))
  }

  lemma LineSays(admit: nat -> bool, sink: Sink, es: seq<Entry>, k: nat)
    requires k < |es|
    ensures Says(admit, sink, es, k, LineFor(admit, sink, es, k))
  {
    hide Admitted, Rank;
  }

  // ---------- the body's order ----------

  /** A target's operations, in the order of the body. */
  function ForTarget(items: seq<Item>, t: Target): seq<Entry> {
    if items == [] then []
    else
      var n := |items| - 1;
      ForTarget(items[..n], t)
      + if items[n].Ok? && items[n].value.op.target == t then [Entry(n, items[n].value)] else []
  }

  lemma {:induction false} ForTargetHas(items: seq<Item>, i: nat)
    requires i < |items| && items[i].Ok?
    ensures Entry(i, items[i].value) in ForTarget(items, items[i].value.op.target)
    decreases |items|
  {
    if i < |items| - 1 {
      ForTargetHas(items[..|items| - 1], i);
    }
  }

  /** What has been flushed to a target, in the order it was flushed. */
  function FlushedTo(log: seq<Batch>, t: Target): seq<Entry> {
    if log == [] then []
    else FlushedTo(log[..|log| - 1], t) + if log[|log| - 1].target == t then log[|log| - 1].entries else []
  }

  lemma {:induction false} FlushedIsLogged(log: seq<Batch>, t: Target, e: Entry) returns (b: nat, k: nat)
    requires e in FlushedTo(log, t)
    ensures b < |log| && k < |log[b].entries| && log[b].entries[k] == e
    decreases |log|
  {
    var n := |log| - 1;
    if e in FlushedTo(log[..n], t) {
      b, k := FlushedIsLogged(log[..n], t, e);
    } else {
      b := n;
      k :| 0 <= k < |log[n].entries| && log[n].entries[k] == e;
    }
  }

  // ---------- what the demux keeps ----------

  /** The demux's fields, with the items seen and the flushes made so far. */
  datatype State = State(buffers: map<Target, seq<Entry>>, sizes: map<Target, nat>, lines: seq<Option<Line>>,
                         items: seq<Item>, log: seq<Batch>)

  function BufferOf(d: State, t: Target): seq<Entry> {
    if t in d.buffers then d.buffers[t] else []
  }

  /** Between operations every buffer is below both thresholds, and its size is known. */
  ghost predicate Bounded(countLimit: nat, byteLimit: nat, d: State) {
    && d.sizes.Keys == d.buffers.Keys
    && forall t | t in d.buffers :: 0 < |d.buffers[t]| < countLimit && d.sizes[t] == SumBytes(d.buffers[t]) < byteLimit
  }

  /** The bytes of the documents themselves; a delete has none. */
  function Weight(es: seq<Entry>): nat {
    if es == [] then 0
    else
      Weight(es[..|es| - 1])
      + match es[|es| - 1].p.op.doc
        case Delete => 0
        case Index(body) => |body|
        case Create(body) => |body|
        case Update(body) => |body|
  }

  lemma {:induction false} SizeIsWeight(es: seq<Entry>)
    ensures SumBytes(es) == Weight(es)
    decreases |es|
  {
    if es != [] {
      SizeIsWeight(es[..|es| - 1]);
    }
  }

  predicate Below(countLimit: nat, byteLimit: nat, es: seq<Entry>) {
    es == [] || (|es| < countLimit && Weight(es) < byteLimit)
  }

  /** A batch is full when it reaches a threshold that it was below without its last entry. */
  predicate Full(countLimit: nat, byteLimit: nat, es: seq<Entry>) {
    es != [] && !Below(countLimit, byteLimit, es) && Below(countLimit, byteLimit, es[..|es| - 1])
  }

  /** What is flushed in the middle of a body is full. */
  predicate AllFull(countLimit: nat, byteLimit: nat, log: seq<Batch>) {
    forall b | 0 <= b < |log| :: Full(countLimit, byteLimit, log[b].entries)
  }

  /** At the end each target's remainder goes once, in some order. */
  ghost predicate Remainder(countLimit: nat, byteLimit: nat, log: seq<Batch>, n: nat) {
    && n <= |log|
    && (forall b | n <= b < |log| :: log[b].entries != [] && Below(countLimit, byteLimit, log[b].entries))
    && forall b, c | n <= b < c < |log| :: log[b].target != log[c].target
  }

  /** Full batches first, and then one remainder for each target that has one. */
  ghost predicate FlushedWhenFull(countLimit: nat, byteLimit: nat, log: seq<Batch>) {
    exists n | 0 <= n <= |log| ::
      AllFull(countLimit, byteLimit, log[..n]) && Remainder(countLimit, byteLimit, log, n)
  }

  /** What was flushed to a target and what waits for it are its operations, in order. */
  ghost predicate InOrder(d: State) {
    forall t :: FlushedTo(d.log, t) + BufferOf(d, t) == ForTarget(d.items, t)
  }

  predicate Entered(d: State, e: Entry) {
    e.ordinal < |d.items| && d.items[e.ordinal] == Ok(e.p)
  }

  predicate Queued(d: State, t: Target, es: seq<Entry>) {
    && (forall e | e in es ::
          Entered(d, e) && e.p.op.target == t && e.ordinal < |d.lines| && d.lines[e.ordinal] == None)
    && Increasing(es)
  }

  predicate WaitingIsUndecided(d: State) {
    forall t | t in d.buffers :: Queued(d, t, d.buffers[t])
  }

  ghost predicate Settled(admit: nat -> bool, sink: Sink, d: State, es: seq<Entry>, k: nat)
    requires k < |es|
  {
    && Entered(d, es[k]) && es[k].ordinal < |d.lines|
    && d.lines[es[k].ordinal] == LineFor(admit, sink, es, k)
    && forall t | t in d.buffers :: es[k] !in d.buffers[t]
  }

  /** Every flushed operation has its line, and waits no longer. */
  ghost predicate FlushedIsDecided(admit: nat -> bool, sink: Sink, d: State) {
    forall b, k | 0 <= b < |d.log| && 0 <= k < |d.log[b].entries| :: Settled(admit, sink, d, d.log[b].entries, k)
  }

  predicate FailedIsDecided(d: State) {
    |d.lines| == |d.items| && forall i | 0 <= i < |d.items| && d.items[i].Err? :: d.lines[i] == Some(d.items[i].error)
  }

  ghost predicate Kept(admit: nat -> bool, sink: Sink, d: State) {
    InOrder(d) && WaitingIsUndecided(d) && FlushedIsDecided(admit, sink, d) && FailedIsDecided(d)
  }

  /** An operation arrives: it waits for its target, or has already failed. */
  function Arrived(d: State, item: Item): State {
    match item
    case Err(line) => d.(items := d.items + [item], lines := d.lines + [Some(line)])
    case Ok(p) =>
      var t, e := p.op.target, Entry(|d.items|, p);
      d.(items := d.items + [item], lines := d.lines + [None],
         buffers := d.buffers[t := BufferOf(d, t) + [e]],
         sizes := d.sizes[t := (if t in d.sizes then d.sizes[t] else 0) + OpBytes(p.op)])
  }

  /** A target's buffer leaves, with the lines it settles. */
  function FlushedOut(d: State, t: Target, lines: seq<Option<Line>>): State {
    d.(buffers := d.buffers - {t}, sizes := d.sizes - {t}, lines := lines, log := d.log + [Batch(t, BufferOf(d, t))])
  }

  predicate Settles(admit: nat -> bool, sink: Sink, es: seq<Entry>, before: seq<Option<Line>>,
                    after: seq<Option<Line>>) {
    && |after| == |before|
    && (forall k | 0 <= k < |es| :: es[k].ordinal < |after| && after[es[k].ordinal] == LineFor(admit, sink, es, k))
    && forall i | 0 <= i < |before| && (forall e | e in es :: e.ordinal != i) :: after[i] == before[i]
  }

  lemma ArrivesInOrder(d: State, item: Item)
    requires InOrder(d)
    ensures InOrder(Arrived(d, item))
  {
    var g := Arrived(d, item);
    assert g.items[..|d.items|] == d.items;
    forall t: Target
      ensures FlushedTo(g.log, t) + BufferOf(g, t) == ForTarget(g.items, t)
    {
      assert FlushedTo(d.log, t) + BufferOf(d, t) == ForTarget(d.items, t);
      if item.Ok? && item.value.op.target == t {
        var e := Entry(|d.items|, item.value);
        assert FlushedTo(d.log, t) + (BufferOf(d, t) + [e]) == (FlushedTo(d.log, t) + BufferOf(d, t)) + [e];
      } else {
        assert ForTarget(d.items, t) + [] == ForTarget(d.items, t);
      }
    }
  }

  lemma StillQueued(d: State, item: Item, t: Target, es: seq<Entry>)
    requires Queued(d, t, es) && |d.lines| == |d.items|
    ensures Queued(Arrived(d, item), t, es)
  {
    var g := Arrived(d, item);
    forall e | e in es
      ensures Entered(g, e) && e.p.op.target == t && e.ordinal < |g.lines| && g.lines[e.ordinal] == None
    {
    }
  }

  lemma NewlyQueued(d: State, p: Prepared, es: seq<Entry>)
    requires Queued(Arrived(d, Ok(p)), p.op.target, es) && |d.lines| == |d.items|
    requires forall e | e in es :: e.ordinal < |d.items|
    ensures Queued(Arrived(d, Ok(p)), p.op.target, es + [Entry(|d.items|, p)])
  {
  }

  lemma ArrivesWaiting(d: State, item: Item)
    requires WaitingIsUndecided(d) && |d.lines| == |d.items|
    ensures WaitingIsUndecided(Arrived(d, item))
  {
    hide Queued;
    var g := Arrived(d, item);
    forall t | t in g.buffers
      ensures Queued(g, t, g.buffers[t])
    {
      var es := BufferOf(d, t);
      assert Queued(d, t, es) by { if t !in d.buffers { NothingQueued(d, t); } }
      StillQueued(d, item, t, es);
      if item.Ok? && item.value.op.target == t {
        QueuedOrdinals(d, t, es);
        NewlyQueued(d, item.value, es);
      }
    }
  }

  lemma NothingQueued(d: State, t: Target)
    ensures Queued(d, t, [])
  {
  }

  lemma QueuedOrdinals(d: State, t: Target, es: seq<Entry>)
    requires Queued(d, t, es)
    ensures forall e | e in es :: e.ordinal < |d.items|
  {
  }

  lemma ArrivesSettled(admit: nat -> bool, sink: Sink, d: State, item: Item, es: seq<Entry>, k: nat)
    requires k < |es| && Settled(admit, sink, d, es, k) && |d.lines| == |d.items|
    ensures Settled(admit, sink, Arrived(d, item), es, k)
  {
    hide LineFor;
    var g := Arrived(d, item);
    forall t | t in g.buffers
      ensures es[k] !in g.buffers[t]
    {
      assert es[k] !in BufferOf(d, t);
    }
  }

  lemma Arrives(admit: nat -> bool, sink: Sink, d: State, item: Item)
    requires Kept(admit, sink, d)
    ensures Kept(admit, sink, Arrived(d, item))
  {
    hide InOrder, WaitingIsUndecided, Settled;
    ArrivesInOrder(d, item);
    ArrivesWaiting(d, item);
    var g := Arrived(d, item);
    forall b, k | 0 <= b < |g.log| && 0 <= k < |g.log[b].entries|
      ensures Settled(admit, sink, g, g.log[b].entries, k)
    {
      ArrivesSettled(admit, sink, d, item, d.log[b].entries, k);
    }
  }

  lemma LeavesInOrder(d: State, t: Target, lines: seq<Option<Line>>)
    requires InOrder(d)
    ensures InOrder(FlushedOut(d, t, lines))
  {
    var g := FlushedOut(d, t, lines);
    assert g.log[..|d.log|] == d.log;
    forall u: Target
      ensures FlushedTo(g.log, u) + BufferOf(g, u) == ForTarget(g.items, u)
    {
      assert FlushedTo(d.log, u) + BufferOf(d, u) == ForTarget(d.items, u);
      assert FlushedTo(d.log, u) + [] == FlushedTo(d.log, u);
      assert FlushedTo(g.log, u) == FlushedTo(d.log, u) + if u == t then BufferOf(d, t) else [];
    }
  }

  /** Two entered operations with one ordinal are the same. */
  lemma OrdinalDecides(d: State, e: Entry, e': Entry)
    requires Entered(d, e) && Entered(d, e') && e.ordinal == e'.ordinal
    ensures e == e'
  {
  }

  lemma LeavesWaiting(admit: nat -> bool, sink: Sink, d: State, t: Target, lines: seq<Option<Line>>)
    requires WaitingIsUndecided(d) && Settles(admit, sink, BufferOf(d, t), d.lines, lines)
    ensures WaitingIsUndecided(FlushedOut(d, t, lines))
  {
    hide LineFor;
    var g := FlushedOut(d, t, lines);
    var gone := BufferOf(d, t);
    forall u | u in g.buffers
      ensures Queued(g, u, g.buffers[u])
    {
      var es := d.buffers[u];
      assert Queued(d, u, es) && (t in d.buffers ==> Queued(d, t, gone));
      forall e | e in es
        ensures Entered(g, e) && e.ordinal < |g.lines| && g.lines[e.ordinal] == None
      {
        forall e' | e' in gone
          ensures e'.ordinal != e.ordinal
        {
          if e'.ordinal == e.ordinal {
            OrdinalDecides(d, e, e');
          }
        }
      }
    }
  }

  lemma StaysSettled(admit: nat -> bool, sink: Sink, d: State, t: Target, lines: seq<Option<Line>>, es: seq<Entry>,
                     k: nat)
    requires k < |es| && Settled(admit, sink, d, es, k)
    requires WaitingIsUndecided(d) && Settles(admit, sink, BufferOf(d, t), d.lines, lines)
    ensures Settled(admit, sink, FlushedOut(d, t, lines), es, k)
  {
    hide LineFor, Increasing;
    var gone := BufferOf(d, t);
    forall e' | e' in gone
      ensures e'.ordinal != es[k].ordinal
    {
      assert Queued(d, t, gone) && Entered(d, e');
    }
  }

  lemma NewlySettled(admit: nat -> bool, sink: Sink, d: State, t: Target, lines: seq<Option<Line>>, k: nat)
    requires t in d.buffers && k < |d.buffers[t]|
    requires WaitingIsUndecided(d) && Settles(admit, sink, d.buffers[t], d.lines, lines)
    ensures Settled(admit, sink, FlushedOut(d, t, lines), d.buffers[t], k)
  {
    hide LineFor, Increasing;
    var es := d.buffers[t];
    assert Queued(d, t, es) && es[k] in es;
    forall u | u in d.buffers && u != t
      ensures es[k] !in d.buffers[u]
    {
      assert Queued(d, u, d.buffers[u]);
    }
  }

  lemma Leaves(admit: nat -> bool, sink: Sink, d: State, t: Target, lines: seq<Option<Line>>)
    requires Kept(admit, sink, d) && t in d.buffers && Settles(admit, sink, d.buffers[t], d.lines, lines)
    ensures Kept(admit, sink, FlushedOut(d, t, lines))
  {
    hide InOrder, Settled, Queued, Settles;
    LeavesInOrder(d, t, lines);
    LeavesWaiting(admit, sink, d, t, lines);
    var g := FlushedOut(d, t, lines);
    forall b, k | 0 <= b < |g.log| && 0 <= k < |g.log[b].entries|
      ensures Settled(admit, sink, g, g.log[b].entries, k)
    {
      if b < |d.log| {
        StaysSettled(admit, sink, d, t, lines, d.log[b].entries, k);
      } else {
        NewlySettled(admit, sink, d, t, lines, k);
      }
    }
    LeavesFailed(admit, sink, d, t, lines);
  }

  lemma LeavesFailed(admit: nat -> bool, sink: Sink, d: State, t: Target, lines: seq<Option<Line>>)
    requires FailedIsDecided(d) && WaitingIsUndecided(d) && t in d.buffers
             && Settles(admit, sink, d.buffers[t], d.lines, lines)
    ensures FailedIsDecided(FlushedOut(d, t, lines))
  {
    hide LineFor, Increasing;
    assert Queued(d, t, d.buffers[t]);
  }

  // ---------- the demux ----------

  class Demux {
    const countLimit: nat
    const byteLimit: nat
    const admit: nat -> bool
    const sink: Sink
    var buffers: map<Target, seq<Entry>>
    var sizes: map<Target, nat>
    var lines: seq<Option<Line>>
    ghost var items: seq<Item>
    ghost var log: seq<Batch>

    ghost function Model(): State
      reads this
    {
      State(buffers, sizes, lines, items, log)
    }

    ghost predicate Valid()
      reads this
    {
      Bounded(countLimit, byteLimit, Model()) && Kept(admit, sink, Model()) && AllFull(countLimit, byteLimit, log)
    }

    constructor (countLimit: nat, byteLimit: nat, admit: nat -> bool, sink: Sink)
      ensures Valid() && items == [] && log == []
      ensures this.countLimit == countLimit && this.byteLimit == byteLimit && this.admit == admit && this.sink == sink
    {
      this.countLimit := countLimit;
      this.byteLimit := byteLimit;
      this.admit := admit;
      this.sink := sink;
      buffers := map[];
      sizes := map[];
      lines := [];
      items := [];
      log := [];
    }

    /** Splits a flush by the write gate. */
    method Gate(es: seq<Entry>) returns (admitted: seq<Entry>, rejected: seq<Entry>)
      ensures admitted == Admitted(admit, es)
      ensures rejected == Admitted(Refused(admit), es)
    {
      admitted, rejected := [], [];
      for i := 0 to |es|
        invariant admitted == Admitted(admit, es[..i])
        invariant rejected == Admitted(Refused(admit), es[..i])
      {
        assert es[..i + 1][..i] == es[..i];
        if admit(es[i].ordinal) {
          admitted := admitted + [es[i]];
        } else {
          rejected := rejected + [es[i]];
        }
      }
      assert es[..|es|] == es;
    }

    /** Puts a batch's results into the lines by ordinal. */
    method ApplyResults(es: seq<Entry>, ack: Option<seq<OpResult>>)
      requires forall e | e in es :: e.ordinal < |lines|
      requires Increasing(es)
      modifies this`lines
      ensures |lines| == |old(lines)|
      ensures forall j | 0 <= j < |es| ::
                lines[es[j].ordinal] == if AckLine(es[j].p, ack, j).Some? then AckLine(es[j].p, ack, j)
                  else old(lines)[es[j].ordinal]
      ensures forall i | 0 <= i < |lines| && (forall e | e in es :: e.ordinal != i) :: lines[i] == old(lines)[i]
    {
      var n := if ack.Some? && |ack.value| < |es| then |ack.value| else |es|;
      for j := 0 to n
        invariant |lines| == |old(lines)|
        invariant forall l | 0 <= l < j :: lines[es[l].ordinal] == AckLine(es[l].p, ack, l)
        invariant forall l | j <= l < |es| :: lines[es[l].ordinal] == old(lines)[es[l].ordinal]
        invariant forall i | 0 <= i < |lines| && (forall e | e in es :: e.ordinal != i) :: lines[i] == old(lines)[i]
      {
        assert es[j] in es;
        var line := match ack
          case None => ErrorLine(es[j].p, 502, UpstreamFailed)
          case Some(results) => SuccessLine(es[j].p, results[j]);
        lines := lines[es[j].ordinal := Some(line)];
      }
    }

    /** Positions the rejected entries. */
    method Reject(es: seq<Entry>)
      requires forall e | e in es :: e.ordinal < |lines|
      requires Increasing(es)
      modifies this`lines
      ensures |lines| == |old(lines)|
      ensures forall e | e in es :: lines[e.ordinal] == Some(ErrorLine(e.p, 409, StaleEpoch))
      ensures forall i | 0 <= i < |lines| && (forall e | e in es :: e.ordinal != i) :: lines[i] == old(lines)[i]
    {
      for i := 0 to |es|
        invariant |lines| == |old(lines)|
        invariant forall l | 0 <= l < i :: lines[es[l].ordinal] == Some(ErrorLine(es[l].p, 409, StaleEpoch))
        invariant forall o | 0 <= o < |lines| && (forall e | e in es :: e.ordinal != o) :: lines[o] == old(lines)[o]
      {
        assert es[i] in es;
        lines := lines[es[i].ordinal := Some(ErrorLine(es[i].p, 409, StaleEpoch))];
      }
    }

    /** Gates, dispatches and settles one target's entries. */
    method Flush(t: Target, es: seq<Entry>)
      requires Queued(Model(), t, es)
      modifies this`lines, this`log
      ensures log == old(log) + [Batch(t, es)]
      ensures Settles(admit, sink, es, old(lines), lines)
    {
      var admitted, rejected := Gate(es);
      AdmittedIncreasing(admit, es);
      AdmittedIncreasing(Refused(admit), es);
      Reject(rejected);
      ApplyResults(admitted, sink(admitted));
      forall k | 0 <= k < |es|
        ensures lines[es[k].ordinal] == LineFor(admit, sink, es, k)
      {
        if admit(es[k].ordinal) {
          RankFinds(admit, es, k);
        }
      }
      log := log + [Batch(t, es)];
    }

    /** Buffers one prepared operation, and flushes its target when that is full; `d` is
        the state the operation arrived in. */
    method BufferAndFlush(ordinal: nat, p: Prepared, ghost d: State)
      requires Bounded(countLimit, byteLimit, d) && Kept(admit, sink, d) && ordinal == |d.items|
      requires AllFull(countLimit, byteLimit, d.log)
      requires Model() == Arrived(d, Ok(p)).(buffers := d.buffers, sizes := d.sizes)
      modifies this`buffers, this`sizes, this`lines, this`log
      ensures Valid()
    {
      hide Kept, Bounded, AllFull, Full;
      Arrives(admit, sink, d, Ok(p));
      var t := p.op.target;
      var buf := (if t in buffers then buffers[t] else []) + [Entry(ordinal, p)];
      buffers := buffers[t := buf];
      var overCount := |buf| >= countLimit;
      var size := (if t in sizes then sizes[t] else 0) + OpBytes(p.op);
      sizes := sizes[t := size];
      assert Model() == Arrived(d, Ok(p));
      BoundedArrival(countLimit, byteLimit, d, p);
      if overCount || size >= byteLimit {
        FilledUp(countLimit, byteLimit, d, p);
        FullAppend(countLimit, byteLimit, log, Batch(t, buffers[t]));
        FlushTarget(t);
        BoundedDeparture(countLimit, byteLimit, d, p, Model());
      }
    }

    /** Takes one target's buffer out and flushes it. */
    method FlushTarget(t: Target)
      requires Kept(admit, sink, Model()) && t in buffers
      modifies this`buffers, this`sizes, this`lines, this`log
      ensures Kept(admit, sink, Model()) && buffers == old(buffers) - {t} && sizes == old(sizes) - {t}
      ensures log == old(log) + [Batch(t, old(buffers)[t])]
    {
      hide Kept, Settles, Queued;
      ghost var d := Model();
      var es := buffers[t];
      KeptQueued(admit, sink, d, t);
      buffers := buffers - {t};
      sizes := sizes - {t};
      QueuedElsewhere(d, Model(), t, es);
      Flush(t, es);
      Leaves(admit, sink, d, t, lines);
      assert Model() == FlushedOut(d, t, lines);
    }

    /** One operation of the body, prepared or failed. */
    method Accept(item: Item)
      requires Valid()
      modifies this`buffers, this`sizes, this`lines, this`log, this`items
      ensures Valid() && items == old(items) + [item]
    {
      hide Kept, Bounded;
      ghost var d := Model();
      var ordinal := |lines|;
      KeptLengths(admit, sink, d);
      items := items + [item];
      match item
      case Ok(p) =>
        lines := lines + [None];
        assert Model() == Arrived(d, item).(buffers := d.buffers, sizes := d.sizes);
        BufferAndFlush(ordinal, p, d);
      case Err(line) =>
        lines := lines + [Some(line)];
        Arrives(admit, sink, d, item);
        assert Model() == Arrived(d, item);
        SameBuffers(countLimit, byteLimit, d, Model());
    }

    /** Flushes what is left, in whatever order the targets complete. */
    method FlushRemaining()
      requires Valid()
      modifies this`buffers, this`sizes, this`lines, this`log
      ensures Kept(admit, sink, Model()) && buffers == map[]
      ensures exists sent :: RemainderSent(old(buffers), sent, buffers) && log == old(log) + sent
      ensures FlushedWhenFull(countLimit, byteLimit, log)
    {
      hide Kept, AllFull, RemainderSent, FlushedWhenFull, Bounded;
      ghost var sent, d := [], Model();
      NothingSent(buffers);
      while buffers != map[]
        invariant Kept(admit, sink, Model())
        invariant log == old(log) + sent && RemainderSent(old(buffers), sent, buffers)
        invariant forall u | u in buffers :: u in old(buffers) && buffers[u] == old(buffers)[u]
        decreases |buffers|
      {
        var t :| t in buffers;
        OneBufferLess(buffers, t);
        OneSent(d.buffers, sent, buffers, t);
        sent := sent + [Batch(t, buffers[t])];
        FlushTarget(t);
      }
      AllSent(countLimit, byteLimit, d, sent);
    }
  }

  lemma OneBufferLess(m: map<Target, seq<Entry>>, t: Target)
    requires t in m
    ensures |m - {t}| < |m|
  {
    assert (m - {t}).Keys == m.Keys - {t};
    assert |m| == |m.Keys| && |m - {t}| == |(m - {t}).Keys|;
  }

  /** What has been sent of `all`, each target once, and what is left. */
  ghost predicate RemainderSent(all: map<Target, seq<Entry>>, sent: seq<Batch>, left: map<Target, seq<Entry>>) {
    && (forall b | 0 <= b < |sent| ::
          sent[b].target in all && sent[b].entries == all[sent[b].target] && sent[b].target !in left)
    && (forall b, c | 0 <= b < c < |sent| :: sent[b].target != sent[c].target)
    && forall t | t in all :: Batch(t, all[t]) in sent || (t in left && left[t] == all[t])
  }

  lemma NothingSent(all: map<Target, seq<Entry>>)
    ensures RemainderSent(all, [], all)
  {
  }

  lemma OneSent(all: map<Target, seq<Entry>>, sent: seq<Batch>, left: map<Target, seq<Entry>>, t: Target)
    requires RemainderSent(all, sent, left) && t in left && (forall u | u in left :: u in all && left[u] == all[u])
    ensures RemainderSent(all, sent + [Batch(t, left[t])], left - {t})
  {
    var more := sent + [Batch(t, left[t])];
    forall u | u in all
      ensures Batch(u, all[u]) in more || (u in left - {t} && (left - {t})[u] == all[u])
    {
      if Batch(u, all[u]) !in sent && u == t {
        assert more[|sent|] == Batch(u, all[u]);
      }
    }
  }

  lemma AllSent(countLimit: nat, byteLimit: nat, d: State, sent: seq<Batch>)
    requires Bounded(countLimit, byteLimit, d) && AllFull(countLimit, byteLimit, d.log)
    requires RemainderSent(d.buffers, sent, map[])
    ensures FlushedWhenFull(countLimit, byteLimit, d.log + sent)
  {
    hide Bounded, Full, Below, RemainderSent;
    var log, n := d.log + sent, |d.log|;
    assert log[..n] == d.log && log[n..] == sent;
    SentOnceEach(d.buffers, sent);
    forall b | n <= b < |log|
      ensures log[b].entries != [] && Below(countLimit, byteLimit, log[b].entries)
    {
      assert log[b] == sent[b - n];
      WaitsBelow(countLimit, byteLimit, d, sent[b - n].target);
    }
    forall b, c | n <= b < c < |log|
      ensures log[b].target != log[c].target
    {
      assert log[b] == sent[b - n] && log[c] == sent[c - n];
    }
    assert Remainder(countLimit, byteLimit, log, n);
  }

  lemma WaitsBelow(countLimit: nat, byteLimit: nat, d: State, t: Target)
    requires Bounded(countLimit, byteLimit, d) && t in d.buffers
    ensures d.buffers[t] != [] && Below(countLimit, byteLimit, d.buffers[t])
  {
    SizeIsWeight(d.buffers[t]);
  }

  lemma SentOnceEach(all: map<Target, seq<Entry>>, sent: seq<Batch>)
    requires RemainderSent(all, sent, map[])
    ensures forall b | 0 <= b < |sent| :: sent[b].target in all && sent[b].entries == all[sent[b].target]
    ensures forall b, c | 0 <= b < c < |sent| :: sent[b].target != sent[c].target
  {
  }

  lemma KeptLengths(admit: nat -> bool, sink: Sink, d: State)
    requires Kept(admit, sink, d)
    ensures |d.lines| == |d.items|
  {
  }

  lemma KeptQueued(admit: nat -> bool, sink: Sink, d: State, t: Target)
    requires Kept(admit, sink, d) && t in d.buffers
    ensures Queued(d, t, d.buffers[t])
  {
  }

  lemma QueuedElsewhere(d: State, g: State, t: Target, es: seq<Entry>)
    requires Queued(d, t, es) && g.items == d.items && g.lines == d.lines
    ensures Queued(g, t, es)
  {
  }

  lemma SameBuffers(countLimit: nat, byteLimit: nat, d: State, g: State)
    requires Bounded(countLimit, byteLimit, d) && g.buffers == d.buffers && g.sizes == d.sizes
    ensures Bounded(countLimit, byteLimit, g)
  {
  }

  /** After an arrival only its own target can be full. */
  lemma BoundedArrival(countLimit: nat, byteLimit: nat, d: State, p: Prepared)
    requires Bounded(countLimit, byteLimit, d)
    ensures var g, t := Arrived(d, Ok(p)), p.op.target;
            g.sizes[t] == SumBytes(g.buffers[t])
            && (|g.buffers[t]| < countLimit && g.sizes[t] < byteLimit ==> Bounded(countLimit, byteLimit, g))
  {
    var buf := BufferOf(d, p.op.target);
    assert (buf + [Entry(|d.items|, p)])[..|buf|] == buf;
  }

  lemma FilledUp(countLimit: nat, byteLimit: nat, d: State, p: Prepared)
    requires Bounded(countLimit, byteLimit, d)
    requires var g, t := Arrived(d, Ok(p)), p.op.target; |g.buffers[t]| >= countLimit || g.sizes[t] >= byteLimit
    ensures Full(countLimit, byteLimit, Arrived(d, Ok(p)).buffers[p.op.target])
  {
    BoundedArrival(countLimit, byteLimit, d, p);
    var buf := BufferOf(d, p.op.target);
    var full := buf + [Entry(|d.items|, p)];
    SizeIsWeight(buf);
    SizeIsWeight(full);
    assert full[..|buf|] == buf;
  }

  lemma FullAppend(countLimit: nat, byteLimit: nat, log: seq<Batch>, b: Batch)
    requires AllFull(countLimit, byteLimit, log) && Full(countLimit, byteLimit, b.entries)
    ensures AllFull(countLimit, byteLimit, log + [b])
  {
    hide Full;
  }

  lemma BoundedDeparture(countLimit: nat, byteLimit: nat, d: State, p: Prepared, h: State)
    requires Bounded(countLimit, byteLimit, d)
    requires h.buffers == Arrived(d, Ok(p)).buffers - {p.op.target}
             && h.sizes == Arrived(d, Ok(p)).sizes - {p.op.target}
    ensures Bounded(countLimit, byteLimit, h)
  {
  }

  // ---------- the response ----------

  /** A finished demux: every operation has been flushed, in order, and settled. */
  ghost predicate Finished(admit: nat -> bool, sink: Sink, d: State) {
    Kept(admit, sink, d) && d.buffers == map[]
  }

  /** Every target was sent exactly its operations, in the body's order. */
  lemma EachTargetInOrder(admit: nat -> bool, sink: Sink, d: State, t: Target)
    requires Finished(admit, sink, d)
    ensures FlushedTo(d.log, t) == ForTarget(d.items, t)
  {
    hide FlushedIsDecided, WaitingIsUndecided, FailedIsDecided;
    assert FlushedTo(d.log, t) + BufferOf(d, t) == ForTarget(d.items, t);
    assert FlushedTo(d.log, t) + [] == FlushedTo(d.log, t);
  }

  lemma {:induction false} AdmittedConcat(admit: nat -> bool, a: seq<Entry>, b: seq<Entry>)
    ensures Admitted(admit, a + b) == Admitted(admit, a) + Admitted(admit, b)
    decreases |b|
  {
    if b == [] {
      assert a + b == a;
    } else {
      hide Admitted;
      AdmittedStep(admit, a + b);
      AdmittedStep(admit, b);
      assert (a + b)[..|a + b| - 1] == a + b[..|b| - 1];
      AdmittedConcat(admit, a, b[..|b| - 1]);
    }
  }

  /** What the sink has been sent for a target. */
  function SentTo(admit: nat -> bool, log: seq<Batch>, t: Target): seq<Entry> {
    if log == [] then []
    else
      var last := log[|log| - 1];
      SentTo(admit, log[..|log| - 1], t) + if last.target == t then Admitted(admit, last.entries) else []
  }

  lemma {:induction false} SentIsAdmitted(admit: nat -> bool, log: seq<Batch>, t: Target)
    ensures SentTo(admit, log, t) == Admitted(admit, FlushedTo(log, t))
    decreases |log|
  {
    if log != [] {
      hide Admitted;
      var last := log[|log| - 1];
      SentIsAdmitted(admit, log[..|log| - 1], t);
      AdmittedConcat(admit, FlushedTo(log[..|log| - 1], t), if last.target == t then last.entries else []);
      NoneAdmitted(admit);
    }
  }

  lemma NoneAdmitted(admit: nat -> bool)
    ensures Admitted(admit, []) == []
  {
  }

  /** Each target receives its admitted operations, all of them, in the body's order. */
  lemma SinkSeesBodyOrder(admit: nat -> bool, sink: Sink, d: State, t: Target)
    requires Finished(admit, sink, d)
    ensures SentTo(admit, d.log, t) == Admitted(admit, ForTarget(d.items, t))
  {
    hide Kept;
    EachTargetInOrder(admit, sink, d, t);
    SentIsAdmitted(admit, d.log, t);
  }

  /** The sink answers a batch with one result per operation, or fails it whole. */
  ghost predicate OneAckPerOp(sink: Sink) {
    forall es :: match sink(es) case None => true case Some(results) => |results| == |es|
  }

  lemma LineForIsSome(admit: nat -> bool, sink: Sink, es: seq<Entry>, k: nat)
    requires k < |es| && OneAckPerOp(sink)
    ensures LineFor(admit, sink, es, k).Some?
  {
    if admit(es[k].ordinal) {
      RankFinds(admit, es, k);
      var sent := Admitted(admit, es);
      assert match sink(sent) case None => true case Some(results) => |results| == |sent|;
    }
  }

  /** The flush an operation was sent in. */
  lemma SentOnce(admit: nat -> bool, sink: Sink, d: State, i: nat) returns (b: nat, k: nat)
    requires Finished(admit, sink, d) && i < |d.items| && d.items[i].Ok?
    ensures i < |d.lines| && b < |d.log| && k < |d.log[b].entries| && d.log[b].entries[k] == Entry(i, d.items[i].value)
    ensures d.lines[i] == LineFor(admit, sink, d.log[b].entries, k)
  {
    hide LineFor, WaitingIsUndecided, InOrder;
    var p := d.items[i].value;
    ForTargetHas(d.items, i);
    EachTargetInOrder(admit, sink, d, p.op.target);
    b, k := FlushedIsLogged(d.log, p.op.target, Entry(i, p));
    assert Settled(admit, sink, d, d.log[b].entries, k);
  }

  /** If the sink answers for every operation of a batch, or fails the batch, then every
      position of the body gets exactly one line: a failed preparation its own error,
      any other the verdict and result of the one flush it was sent in. */
  lemma EveryOrdinalDecided(admit: nat -> bool, sink: Sink, d: State, i: nat)
    requires Finished(admit, sink, d) && OneAckPerOp(sink) && i < |d.items|
    ensures |d.lines| == |d.items| && d.lines[i].Some?
    ensures d.items[i].Err? ==> d.lines[i] == Some(d.items[i].error)
    ensures d.items[i].Ok? ==> exists b, k ::
              0 <= b < |d.log| && 0 <= k < |d.log[b].entries| && d.log[b].entries[k] == Entry(i, d.items[i].value)
              && d.lines[i] == LineFor(admit, sink, d.log[b].entries, k)
              && Says(admit, sink, d.log[b].entries, k, d.lines[i])
  {
    hide LineFor, InOrder, Says;
    if d.items[i].Ok? {
      var b, k := SentOnce(admit, sink, d, i);
      LineForIsSome(admit, sink, d.log[b].entries, k);
      LineSays(admit, sink, d.log[b].entries, k);
    }
  }

  /** Every admitted operation of a batch that the sink failed is reported as lost
      upstream, under its own index and id; nothing else is. */
  lemma FailedBatchIsReported(admit: nat -> bool, sink: Sink, d: State, b: nat, k: nat)
    requires Kept(admit, sink, d) && b < |d.log| && k < |d.log[b].entries|
    requires d.log[b].entries[k].ordinal < |d.lines|
    ensures var es := d.log[b].entries;
            var l := d.lines[es[k].ordinal];
            && (admit(es[k].ordinal) && sink(Admitted(admit, es)).None?
                <==> Reports(l, es[k].p, 502, Failed(UpstreamFailed)))
  {
    hide LineFor, InOrder, WaitingIsUndecided, Admitted, Rank;
    assert Settled(admit, sink, d, d.log[b].entries, k);
    LineSays(admit, sink, d.log[b].entries, k);
  }

  /** The sink treats each operation on its own, but may fail a batch whole. */
  ghost predicate BatchWise(sink: Sink, each: Entry -> OpResult) {
    forall es :: sink(es).None? || sink(es) == Some(seq(|es|, i requires 0 <= i < |es| => each(es[i])))
  }

  /** The sink treats each operation on its own, however they are batched. */
  ghost predicate PerOperation(sink: Sink, each: Entry -> OpResult) {
    forall es :: sink(es) == Some(seq(|es|, i requires 0 <= i < |es| => each(es[i])))
  }

  /** The operations whose batch the sink failed. */
  ghost function Lost(admit: nat -> bool, sink: Sink, log: seq<Batch>): set<nat> {
    set b, k | 0 <= b < |log| && 0 <= k < |log[b].entries| && sink(Admitted(admit, log[b].entries)).None? ::
      log[b].entries[k].ordinal
  }

  /** One operation applied on its own. */
  function SimpleLine(admit: nat -> bool, each: Entry -> OpResult, lost: set<nat>, i: nat, item: Item): Line {
    match item
    case Err(line) => line
    case Ok(p) =>
      if !admit(i) then ErrorLine(p, 409, StaleEpoch)
      else if i in lost then ErrorLine(p, 502, UpstreamFailed)
      else SuccessLine(p, each(Entry(i, p)))
  }

  /** Parse, then apply each operation in turn: no buffers, no thresholds, no order. */
  function Simple(admit: nat -> bool, each: Entry -> OpResult, lost: set<nat>, items: seq<Item>): seq<Option<Line>> {
    seq(|items|, i requires 0 <= i < |items| => Some(SimpleLine(admit, each, lost, i, items[i])))
  }

  /** The demux computes the simple response, whatever the thresholds and the order in
      which targets complete; the operations of the batches that the sink failed, if any,
      are the ones reported as lost. */
  lemma EqualsSimple(admit: nat -> bool, sink: Sink, each: Entry -> OpResult, d: State)
    requires Finished(admit, sink, d) && BatchWise(sink, each)
    ensures d.lines == Simple(admit, each, Lost(admit, sink, d.log), d.items)
  {
    hide LineFor, InOrder, FlushedIsDecided, WaitingIsUndecided, BatchWise, Lost;
    var lost := Lost(admit, sink, d.log);
    forall i | 0 <= i < |d.items|
      ensures |d.lines| == |d.items| && d.lines[i] == Some(SimpleLine(admit, each, lost, i, d.items[i]))
    {
      if d.items[i].Ok? {
        var b, k := SentOnce(admit, sink, d, i);
        SimpleAck(admit, sink, each, d.log[b].entries, k);
        if admit(i) {
          LostIsFailed(admit, sink, d, b, k);
        }
      }
    }
  }

  /** With a sink that fails no batch, no operation is lost. */
  lemma EqualsSimpleUnfailing(admit: nat -> bool, sink: Sink, each: Entry -> OpResult, d: State)
    requires Finished(admit, sink, d) && PerOperation(sink, each)
    ensures d.lines == Simple(admit, each, {}, d.items)
  {
    hide Finished, Simple;
    EqualsSimple(admit, sink, each, d);
    assert Lost(admit, sink, d.log) == {};
  }

  /** An admitted operation was lost exactly if the batch it was sent in failed. */
  lemma LostIsFailed(admit: nat -> bool, sink: Sink, d: State, b: nat, k: nat)
    requires Kept(admit, sink, d) && b < |d.log| && k < |d.log[b].entries| && admit(d.log[b].entries[k].ordinal)
    ensures d.log[b].entries[k].ordinal in Lost(admit, sink, d.log)
            <==> sink(Admitted(admit, d.log[b].entries)).None?
  {
    hide LineFor, InOrder, WaitingIsUndecided, Admitted, FailedIsDecided;
    var i := d.log[b].entries[k].ordinal;
    assert Settled(admit, sink, d, d.log[b].entries, k);
    FailedBatchIsReported(admit, sink, d, b, k);
    if i in Lost(admit, sink, d.log) {
      var c, l :| 0 <= c < |d.log| && 0 <= l < |d.log[c].entries|
        && sink(Admitted(admit, d.log[c].entries)).None? && d.log[c].entries[l].ordinal == i;
      assert Settled(admit, sink, d, d.log[c].entries, l);
      FailedBatchIsReported(admit, sink, d, c, l);
    }
  }

  lemma SimpleAck(admit: nat -> bool, sink: Sink, each: Entry -> OpResult, es: seq<Entry>, k: nat)
    requires k < |es| && BatchWise(sink, each)
    ensures LineFor(admit, sink, es, k)
            == Some(if !admit(es[k].ordinal) then ErrorLine(es[k].p, 409, StaleEpoch)
                    else if sink(Admitted(admit, es)).None? then ErrorLine(es[k].p, 502, UpstreamFailed)
                    else SuccessLine(es[k].p, each(es[k])))
  {
    if admit(es[k].ordinal) {
      RankFinds(admit, es, k);
      var sent := Admitted(admit, es);
      assert sink(sent).None? || sink(sent) == Some(seq(|sent|, i requires 0 <= i < |sent| => each(sent[i])));
    }
  }

  /** `ingest_bulk` and `ingest_bulk_streamed`, after framing and preparation. */
  method Ingest(countLimit: nat, byteLimit: nat, admit: nat -> bool, sink: Sink, items: seq<Item>)
    returns (lines: seq<Option<Line>>, ghost d: State)
    ensures Finished(admit, sink, d) && d.items == items && d.lines == lines
    ensures FlushedWhenFull(countLimit, byteLimit, d.log)
  {
    hide Kept, Bounded, AllFull, FlushedWhenFull;
    var demux := new Demux(countLimit, byteLimit, admit, sink);
    for i := 0 to |items|
      invariant fresh(demux) && demux.Valid() && demux.items == items[..i]
      invariant demux.admit == admit && demux.sink == sink
    {
      demux.Accept(items[i]);
      assert items[..i + 1] == items[..i] + [items[i]];
    }
    assert items[..|items|] == items;
    demux.FlushRemaining();
    lines := demux.lines;
    d := demux.Model();
  }

  /** The response's `errors` flag: some line reports a failure. */
  method HasErrors(lines: seq<Option<Line>>) returns (errors: bool)
    ensures errors <==> exists i :: 0 <= i < |lines| && lines[i].Some? && lines[i].value.kind.Failed?
  {
    errors := false;
    for i := 0 to |lines|
      invariant errors <==> exists k :: 0 <= k < i && lines[k].Some? && lines[k].value.kind.Failed?
    {
      errors := errors || (lines[i].Some? && lines[i].value.kind.Failed?);
    }
  }
}
