/**
  What the write gate lets through. A write is admitted exactly when its partition has not
  moved since the write was resolved and is not in cutover: nothing else holds it back.
*/
module MigrationGate {
  import opened Bytes
  import opened Clock
  import opened Placement
  import opened Migration

  // ---------- the state machine ----------

  /** `p` moved to state `s` under a fresh epoch, and nothing else changed. */
  predicate MovedTo(t: Table, p: Pid, r: Moved, s: PartitionState) {
    && r.Ok? && r.value.generation == t.generation + 1
    && r.value.entries.Keys == t.entries.Keys + {p} && r.value.entries[p] == Entry(s, t.generation + 1)
    && forall q | q in t.entries && q != p :: r.value.entries[q] == t.entries[q]
  }

  /** The whole table of transitions: where each leads, and why it is refused. */
  lemma TransitionTable(t: Table, p: Pid, to: Target)
    ensures var begin, cut, flip, back :=
              BeginMigration(t, p, to), EnterCutover(t, p), CompleteMigration(t, p), AbortMigration(t, p);
            if p !in t.entries then begin == cut == flip == back == Err(UnknownPartition)
            else
              match t.entries[p].state
              case Active(a) =>
                && MovedTo(t, p, begin, Migrating(a, to, Draining))
                && cut == flip == back == Err(NotMigrating)
              case Migrating(a, b, Draining) =>
                && begin == Err(AlreadyMigrating) && MovedTo(t, p, cut, Migrating(a, b, Cutover))
                && flip == Err(NotCutover) && MovedTo(t, p, back, Active(a))
              case Migrating(a, b, Cutover) =>
                && begin == Err(AlreadyMigrating) && cut == Err(NotDraining)
                && MovedTo(t, p, flip, Active(b)) && MovedTo(t, p, back, Active(a))
  {
  }

  /** Where reads of a partition go: to the old place until the migration completes. */
  function Home(s: PartitionState): Target {
    match s
    case Active(a) => a
    case Migrating(a, _, _) => a
  }

  /** The gate: the epoch is current, and the partition is settled or draining. Whatever
      it admits goes where reads go. */
  lemma AdmitsIff(t: Table, p: Pid, epoch: nat)
    ensures Admits(t, p, epoch) <==>
              p in t.entries && t.entries[p].epoch == epoch
              && match t.entries[p].state case Active(_) => true case Migrating(_, _, phase) => phase == Draining
    ensures p in t.entries ==> t.entries[p].state.ReadPlacement() == Home(t.entries[p].state)
    ensures Admits(t, p, epoch) ==> t.entries[p].state.WritePlacement() == Some(Home(t.entries[p].state))
    ensures Admits(t, p, epoch) <==> p in t.entries && t.entries[p].epoch == epoch && !InCutover(t, p)
  {
  }

  /** The barrier's verdict in numbers: nothing is left exactly when the barrier has
      passed since the stamp, and what is left is exactly how long to wait. */
  lemma RemainingIs(barrier: nat, stamp: nat, now: nat, wait: nat)
    requires stamp <= now
    ensures Remaining(barrier, Some(stamp), now + wait, true) == 0 <==> stamp + barrier <= now + wait
    ensures Remaining(barrier, Some(stamp), now + wait, true) == 0 <==>
            Remaining(barrier, Some(stamp), now, true) <= wait
    ensures Remaining(barrier, None, now, true) == barrier
    ensures Remaining(barrier, Some(stamp), now, false) == 0
  {
  }

  /** The state a control-plane operation acts on: none if the partition is unknown or the
      backend is down. */
  function Seen(f: Fleet, p: Pid, up: bool): Option<PartitionState> {
    if up && p in f.table.entries then Some(f.table.entries[p].state) else None
  }

  /** A migration begins on a settled partition, and on no other. */
  lemma BeginIsStep(cfg: Config, f: Fleet, x: Chair, to: Target, up: bool)
    requires PcOf(f, x).Idle?
    ensures var s, g := Seen(f, x.p, up), Step(cfg, f, BeginStep(x, to, up));
            if s.Some? && s.value.Active? then
              MovedTo(f.table, x.p, Ok(g.table), Migrating(s.value.at, to, Draining)) && g == f.(table := g.table)
            else g == f
  {
    TransitionTable(f.table, x.p, to);
    hide MovedTo, BeginMigration;
  }

  /** Cutover is entered from draining only: it is published, and then stamped. */
  lemma EnterIsSteps(cfg: Config, f: Fleet, x: Chair, up: bool)
    requires PcOf(f, x).Idle?
    ensures var s, g := Seen(f, x.p, up), Step(cfg, f, Publish(x, up));
            if s.Some? && s.value.Migrating? && s.value.phase == Draining then
              PcOf(g, x).Published?
              && var h := Step(cfg, g, Stamp(x));
                 && MovedTo(f.table, x.p, Ok(h.table), Migrating(s.value.from, s.value.to, Cutover))
                 && SeatOf(h, x) == Seat(Some(f.now), Idle) && h.since == f.since[x.p := f.now]
            else g == f
  {
    TransitionTable(f.table, x.p, Target([], []));
    hide MovedTo, EnterCutover;
  }

  /** Calling a migration off leads back to where it came from, and forgets the stamp. */
  lemma AbortIsSteps(cfg: Config, f: Fleet, x: Chair, up: bool)
    requires PcOf(f, x).Idle?
    ensures var s, g := Seen(f, x.p, up), Step(cfg, f, AbortStep(x, up));
            if s.Some? && s.value.Migrating? then
              PcOf(g, x).Clearing?
              && var h := Step(cfg, g, Clear(x));
                 MovedTo(f.table, x.p, Ok(h.table), Active(s.value.from)) && SeatOf(h, x) == Seat(None, Idle)
            else g == f
  {
    TransitionTable(f.table, x.p, Target([], []));
    hide MovedTo, AbortMigration;
  }

  // ---------- from resolution to the gate ----------

  /** The event concerns write `w` itself. */
  predicate OfWrite(e: Event, w: nat) {
    match e
    case Resolve(v, _) => v == w
    case Gate(v) => v == w
    case Finish(v) => v == w
    case _ => false
  }

  /** The event may move partition `p`. */
  predicate Moves(e: Event, p: Pid) {
    match e
    case Register(q, _) => q == p
    case BeginStep(x, _, _) => x.p == p
    case Publish(x, _) => x.p == p
    case Flip(x, _) => x.p == p
    case AbortStep(x, _) => x.p == p
    case _ => false
  }

  /** `g` is a later table: the entry is the same, or has a newer epoch. */
  predicate Later(t: Table, g: Table, p: Pid)
    requires p in t.entries
  {
    p in g.entries && (g.entries[p] == t.entries[p] || g.entries[p].epoch > t.entries[p].epoch)
  }

  lemma LaterStamped(t: Table, p: Pid, q: Pid, s: PartitionState)
    requires Placement.Valid(t) && p in t.entries
    ensures var g := Stamped(t, q, s);
            Placement.Valid(g) && Later(t, g, p) && (q != p ==> g.entries[p] == t.entries[p])
  {
  }

  lemma LaterStep(cfg: Config, f: Fleet, e: Event, p: Pid)
    requires Placement.Valid(f.table) && p in f.table.entries && Enabled(cfg, f, e)
    ensures var g := Step(cfg, f, e);
            && Placement.Valid(g.table) && Later(f.table, g.table, p)
            && (!Moves(e, p) ==> g.table.entries[p] == f.table.entries[p])
  {
    var t, g := f.table, Step(cfg, f, e).table;
    if g != t {
      assert e.Register? || e.BeginStep? || e.Publish? || e.Flip? || e.AbortStep? by {
        hide Remaining, InCutover, Admits, Transition, StampAt, PcOf, Placement.Valid, Enabled;
      }
      var q := if e.Register? then e.p else e.x.p;
      assert q in g.entries && g == Stamped(t, q, g.entries[q].state) by {
        hide Placement.Valid, Enabled, Later, Remaining, InCutover, Admits, StampAt, PcOf;
      }
      LaterStamped(t, p, q, g.entries[q].state);
    }
  }

  lemma WriteStep(cfg: Config, f: Fleet, e: Event, w: nat)
    requires Enabled(cfg, f, e) && !OfWrite(e, w)
    ensures var g := Step(cfg, f, e);
            && (w in g.resolved <==> w in f.resolved) && (w in g.inFlight <==> w in f.inFlight)
            && (w in f.resolved ==> g.resolved[w] == f.resolved[w])
  {
    hide Stamped, Admits;
    if !e.Resolve? && !e.Gate? && !e.Finish? {
      WritesStay(cfg, f, e);
      hide Step;
    }
  }

  lemma WritesStay(cfg: Config, f: Fleet, e: Event)
    requires Enabled(cfg, f, e) && !e.Resolve? && !e.Gate? && !e.Finish?
    ensures Step(cfg, f, e).resolved == f.resolved && Step(cfg, f, e).inFlight == f.inFlight
  {
    hide Remaining, InCutover, BeginMigration, EnterCutover, CompleteMigration, AbortMigration;
    hide Stamped, Enabled, SeatOf;
  }

  lemma {:induction false} LaterRun(cfg: Config, f: Fleet, es: seq<Event>, p: Pid, w: nat)
    requires Placement.Valid(f.table) && p in f.table.entries && Possible(cfg, f, es)
    requires forall e | e in es :: !OfWrite(e, w)
    ensures var g := Run(cfg, f, es);
            && Later(f.table, g.table, p)
            && ((forall e | e in es :: !Moves(e, p)) ==> g.table.entries[p] == f.table.entries[p])
            && (w in g.resolved <==> w in f.resolved) && (w in g.inFlight <==> w in f.inFlight)
            && (w in f.resolved ==> g.resolved[w] == f.resolved[w])
    decreases |es|
  {
    hide Step, Enabled, Moves, OfWrite;
    if es != [] {
      assert es[0] in es && forall e | e in es[1..] :: e in es;
      LaterStep(cfg, f, es[0], p);
      WriteStep(cfg, f, es[0], w);
      LaterRun(cfg, Step(cfg, f, es[0]), es[1..], p, w);
    }
  }

  /** A write that was resolved and then, whatever else happened, reaches the gate is
      admitted exactly when its partition has the entry it was resolved at, out of
      cutover; then it is in flight to where it was resolved to. */
  lemma AdmittedIffUnmoved(cfg: Config, f: Fleet, w: nat, p: Pid, es: seq<Event>)
    requires Placement.Valid(f.table) && p in f.table.entries && Enabled(cfg, f, Resolve(w, p))
    requires Possible(cfg, Step(cfg, f, Resolve(w, p)), es) && forall e | e in es :: !OfWrite(e, w)
    ensures var g := Run(cfg, Step(cfg, f, Resolve(w, p)), es);
            && Enabled(cfg, g, Gate(w))
            && var h := Step(cfg, g, Gate(w));
               && (w in h.inFlight <==> p in g.table.entries && g.table.entries[p] == f.table.entries[p]
                                        && !InCutover(f.table, p))
               && (w in h.inFlight ==> h.inFlight[w] == Write(p, Home(f.table.entries[p].state), g.now))
               && w !in h.resolved && h.table == g.table
  {
    hide Possible, Run;
    var f1 := Step(cfg, f, Resolve(w, p));
    LaterRun(cfg, f1, es, p, w);
    var g := Run(cfg, f1, es);
    AdmitsIff(g.table, p, f.table.entries[p].epoch);
  }

  /** A write resolved while its partition is settled or draining is in flight after the
      gate, if nothing tries to move the partition in between. */
  lemma UndisturbedIsAdmitted(cfg: Config, f: Fleet, w: nat, p: Pid, es: seq<Event>)
    requires Placement.Valid(f.table) && p in f.table.entries && Enabled(cfg, f, Resolve(w, p))
    requires Possible(cfg, Step(cfg, f, Resolve(w, p)), es)
    requires forall e | e in es :: !OfWrite(e, w) && !Moves(e, p)
    ensures var g := Run(cfg, Step(cfg, f, Resolve(w, p)), es);
            && Enabled(cfg, g, Gate(w))
            && var h := Step(cfg, g, Gate(w));
               && (w in h.inFlight <==> !InCutover(f.table, p))
               && (w in h.inFlight ==> h.inFlight[w] == Write(p, Home(f.table.entries[p].state), g.now)
                                       && OnTarget(h, h.inFlight[w]))
  {
    hide Possible, Run, OfWrite, Moves, Step, Enabled;
    AdmittedIffUnmoved(cfg, f, w, p, es);
    ResolveMovesNothing(cfg, f, w, p);
    LaterRun(cfg, Step(cfg, f, Resolve(w, p)), es, p, w);
    AdmitsIff(f.table, p, 0);
  }

  lemma ResolveMovesNothing(cfg: Config, f: Fleet, w: nat, p: Pid)
    requires Enabled(cfg, f, Resolve(w, p))
    ensures Step(cfg, f, Resolve(w, p)).table == f.table
  {
  }
}
