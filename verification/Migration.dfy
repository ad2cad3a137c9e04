/**
  The migration control plane over a shared placement table, with everything that
  runs beside it: writers that resolve, pass the gate and commit later, controllers
  that crash and restart, a backend that may be unreachable, and the clock.

  While one controller drives each partition, one operation at a time, and no admitted
  write outlives the drain barrier, every write in flight is bound for the placement
  reads go to. `MigrationRules` shows that none of these rules can be dropped.
*/
module Migration {
  import opened Bytes
  import opened Clock
  import opened Placement

  // ---------- the control plane ----------

  datatype ControlError = Refused(error: MigrationError) | BarrierPending(remaining: nat)

  type Controlled<+T> = Result<T, ControlError>

  /** The barrier's verdict: how much of it is left, if any. A cutover this controller
      has no stamp for starts counting now. */
  function Remaining(barrier: nat, stamp: Option<nat>, now: nat, inCutover: bool): nat {
    if !inCutover then 0
    else
      var e := Elapsed(now, if stamp.Some? then stamp.value else now);
      if e < barrier then barrier - e else 0
  }

  class ControlPlane {
    const store: PlacementTable
    const barrier: nat
    var cutoverAt: map<Pid, nat>

    constructor (store: PlacementTable, barrier: nat)
      ensures this.store == store && this.barrier == barrier && cutoverAt == map[]
    {
      this.store := store;
      this.barrier := barrier;
      cutoverAt := map[];
    }

    function StampOf(p: Pid): Option<nat>
      reads this
    {
      if p in cutoverAt then Some(cutoverAt[p]) else None
    }

    method Begin(p: Pid, to: Target, up: bool) returns (r: Controlled<nat>)
      requires Placement.Valid(store.Model())
      modifies store
      ensures Placement.Valid(store.Model())
      ensures match (if up then BeginMigration(old(store.Model()), p, to) else Err(Backend))
              case Ok(t) => r == Ok(t.generation) && store.Model() == t
              case Err(e) => r == Err(Refused(e)) && store.Model() == old(store.Model())
    {
      if !up {
        return Err(Refused(Backend));
      }
      var moved := store.Apply(p, s => Begun(s, to));
      r := match moved case Ok(epoch) => Ok(epoch) case Err(e) => Err(Refused(e));
    }

    /** Publishes cutover, then starts the barrier's clock: `now` is read afterwards. */
    method Enter(p: Pid, up: bool, now: nat) returns (r: Controlled<nat>)
      requires Placement.Valid(store.Model())
      modifies this, store
      ensures Placement.Valid(store.Model())
      ensures match (if up then EnterCutover(old(store.Model()), p) else Err(Backend))
              case Ok(t) => r == Ok(t.generation) && store.Model() == t && cutoverAt == old(cutoverAt)[p := now]
              case Err(e) => r == Err(Refused(e)) && store.Model() == old(store.Model()) && cutoverAt == old(cutoverAt)
    {
      if !up {
        return Err(Refused(Backend));
      }
      var moved := store.Apply(p, CutOver);
      if moved.Err? {
        return Err(Refused(moved.error));
      }
      cutoverAt := cutoverAt[p := now];
      r := Ok(moved.value);
    }

    /** The pointer flip, once the barrier has elapsed. A state that cannot be read
        (`up` false) counts as not in cutover. */
    method Complete(p: Pid, now: nat, readUp: bool, flipUp: bool) returns (r: Controlled<nat>)
      requires Placement.Valid(store.Model())
      modifies this, store
      ensures Placement.Valid(store.Model())
      ensures var seen := readUp && old(InCutover(store.Model(), p));
              var left := Remaining(barrier, old(StampOf(p)), now, seen);
              var stamped := if seen && p !in old(cutoverAt) then old(cutoverAt)[p := now] else old(cutoverAt);
              if left > 0 then
                r == Err(BarrierPending(left)) && store.Model() == old(store.Model()) && cutoverAt == stamped
              else
                match (if flipUp then CompleteMigration(old(store.Model()), p) else Err(Backend))
                case Ok(t) => r == Ok(t.generation) && store.Model() == t && cutoverAt == stamped - {p}
                case Err(e) => r == Err(Refused(e)) && store.Model() == old(store.Model()) && cutoverAt == stamped
    {
      var seen := readUp && p in store.entries && store.entries[p].state.InCutover();
      if seen {
        if p !in cutoverAt {
          cutoverAt := cutoverAt[p := now];
        }
        var elapsed := Elapsed(now, cutoverAt[p]);
        if elapsed < barrier {
          return Err(BarrierPending(barrier - elapsed));
        }
      }
      if !flipUp {
        return Err(Refused(Backend));
      }
      var moved := store.Apply(p, Completed);
      if moved.Err? {
        return Err(Refused(moved.error));
      }
      cutoverAt := cutoverAt - {p};
      r := Ok(moved.value);
    }

    method Abort(p: Pid, up: bool) returns (r: Controlled<nat>)
      requires Placement.Valid(store.Model())
      modifies this, store
      ensures Placement.Valid(store.Model())
      ensures match (if up then AbortMigration(old(store.Model()), p) else Err(Backend))
              case Ok(t) => r == Ok(t.generation) && store.Model() == t && cutoverAt == old(cutoverAt) - {p}
              case Err(e) => r == Err(Refused(e)) && store.Model() == old(store.Model()) && cutoverAt == old(cutoverAt)
    {
      if !up {
        return Err(Refused(Backend));
      }
      var moved := store.Apply(p, Aborted);
      if moved.Err? {
        return Err(Refused(moved.error));
      }
      cutoverAt := cutoverAt - {p};
      r := Ok(moved.value);
    }
  }

  // ---------- the fleet, step by step ----------

  /** Where a controller is inside an operation on one partition. The steps between two
      of these points are atomic; everyone else runs in between. */
  datatype Pc = Idle | Published | Completing(now: nat) | Flipping | Clearing

  /** What one controller holds about one partition: a stamp, if any. */
  datatype Desk = Desk(c: nat, p: Pid)

  /** One of a controller's operations on one partition. Operations that overlap in time
      are in different lanes; they share the controller's stamp. */
  datatype Chair = Chair(c: nat, p: Pid, lane: nat) {
    function AtDesk(): Desk {
      Desk(c, p)
    }
  }

  /** The stamp an operation sees, and its place. */
  datatype Seat = Seat(stamp: Option<nat>, pc: Pc)

  datatype Resolved = Resolved(p: Pid, epoch: nat, dest: Target)

  datatype Write = Write(p: Pid, dest: Target, admittedAt: nat)

  /** `since` remembers when each cutover was published; no one in the fleet reads it. */
  datatype Fleet = Fleet(now: nat, table: Table, stamps: map<Desk, nat>, pcs: map<Chair, Pc>,
                         resolved: map<nat, Resolved>, inFlight: map<nat, Write>, since: map<Pid, nat>)

  datatype Config = Config(barrier: nat, timeout: nat)

  datatype Event =
    | Tick
    | Register(p: Pid, at: Target)
    | Resolve(w: nat, p: Pid)
    | Gate(w: nat)
    | Finish(w: nat)
    | BeginStep(x: Chair, to: Target, up: bool)
    | Publish(x: Chair, up: bool)
    | Stamp(x: Chair)
    | StartComplete(x: Chair)
    | ReadState(x: Chair, up: bool)
    | Flip(x: Chair, up: bool)
    | AbortStep(x: Chair, up: bool)
    | Clear(x: Chair)
    | Restart(d: Desk)

  function StampAt(f: Fleet, d: Desk): Option<nat> {
    if d in f.stamps then Some(f.stamps[d]) else None
  }

  function PcOf(f: Fleet, x: Chair): Pc {
    if x in f.pcs then f.pcs[x] else Idle
  }

  function SeatOf(f: Fleet, x: Chair): Seat {
    Seat(StampAt(f, x.AtDesk()), PcOf(f, x))
  }

  function At(f: Fleet, x: Chair, pc: Pc): Fleet {
    f.(pcs := f.pcs[x := pc])
  }

  function StampedAt(f: Fleet, d: Desk, time: nat): Fleet {
    f.(stamps := f.stamps[d := time])
  }

  function Unstamped(f: Fleet, d: Desk): Fleet {
    f.(stamps := f.stamps - {d})
  }

  predicate Enabled(cfg: Config, f: Fleet, e: Event) {
    match e
    case Tick => forall w | w in f.inFlight :: f.now + 1 < f.inFlight[w].admittedAt + cfg.timeout
    case Register(_, _) => true
    case Resolve(w, _) => w !in f.inFlight
    case Gate(w) => w in f.resolved && w !in f.inFlight
    case Finish(w) => w in f.inFlight
    case BeginStep(x, _, _) => PcOf(f, x).Idle?
    case Publish(x, _) => PcOf(f, x).Idle?
    case Stamp(x) => PcOf(f, x).Published?
    case StartComplete(x) => PcOf(f, x).Idle?
    case ReadState(x, _) => PcOf(f, x).Completing?
    case Flip(x, _) => PcOf(f, x).Flipping?
    case AbortStep(x, _) => PcOf(f, x).Idle?
    case Clear(x) => PcOf(f, x).Clearing?
    case Restart(_) => true
  }

  function Step(cfg: Config, f: Fleet, e: Event): Fleet
    requires Enabled(cfg, f, e)
  {
    match e
    case Tick => f.(now := f.now + 1)
    case Register(p, at) => f.(table := Stamped(f.table, p, Active(at)))
    case Resolve(w, p) =>
      if p !in f.table.entries then f
      else
        var entry := f.table.entries[p];
        f.(resolved := f.resolved[w := Resolved(p, entry.epoch, entry.state.ReadPlacement())])
    case Gate(w) =>
      var r := f.resolved[w];
      var g := f.(resolved := f.resolved - {w});
      if Admits(f.table, r.p, r.epoch) then g.(inFlight := f.inFlight[w := Write(r.p, r.dest, f.now)]) else g
    case Finish(w) => f.(inFlight := f.inFlight - {w})
    case BeginStep(x, to, up) =>
      (match (if up then BeginMigration(f.table, x.p, to) else Err(Backend))
       case Err(_) => f
       case Ok(t) => f.(table := t))
    case Publish(x, up) =>
      (match (if up then EnterCutover(f.table, x.p) else Err(Backend))
       case Err(_) => f
       case Ok(t) => At(f, x, Published).(table := t, since := f.since[x.p := f.now]))
    case Stamp(x) => StampedAt(At(f, x, Idle), x.AtDesk(), f.now)
    case StartComplete(x) => At(f, x, Completing(f.now))
    case ReadState(x, up) =>
      var s := SeatOf(f, x);
      var seen := up && InCutover(f.table, x.p);
      var g := if seen && s.stamp.None? then StampedAt(f, x.AtDesk(), s.pc.now) else f;
      At(g, x, if Remaining(cfg.barrier, s.stamp, s.pc.now, seen) > 0 then Idle else Flipping)
    case Flip(x, up) =>
      (match (if up then CompleteMigration(f.table, x.p) else Err(Backend))
       case Err(_) => At(f, x, Idle)
       case Ok(t) => At(f, x, Clearing).(table := t))
    case AbortStep(x, up) =>
      (match (if up then AbortMigration(f.table, x.p) else Err(Backend))
       case Err(_) => f
       case Ok(t) => At(f, x, Clearing).(table := t))
    case Clear(x) => Unstamped(At(f, x, Idle), x.AtDesk())
    case Restart(d) => Unstamped(f, d).(pcs := map x | x in f.pcs && x.AtDesk() != d :: f.pcs[x])
  }

  const START := Fleet(0, Table(map[], 0), map[], map[], map[], map[], map[])

  // ---------- the rules of operation ----------

  function Acting(e: Event): Option<Chair> {
    match e
    case BeginStep(x, _, _) => Some(x)
    case Publish(x, _) => Some(x)
    case Stamp(x) => Some(x)
    case StartComplete(x) => Some(x)
    case ReadState(x, _) => Some(x)
    case Flip(x, _) => Some(x)
    case AbortStep(x, _) => Some(x)
    case Clear(x) => Some(x)
    case _ => None
  }

  datatype Rule = OneController | OneAtATime | RegisteredOnce | StateReadable

  /** One controller drives each partition, its operations on a partition do not overlap,
      a partition is registered once, and its state can be read whenever it is asked
      for. */
  predicate Obeys(rule: Rule, owner: Pid -> nat, f: Fleet, e: Event) {
    match rule
    case OneController => Acting(e).Some? ==> Acting(e).value.c == owner(Acting(e).value.p)
    case OneAtATime => Acting(e).Some? ==> Acting(e).value.lane == 0
    case RegisteredOnce => e.Register? ==> e.p !in f.table.entries
    case StateReadable => e.ReadState? ==> e.up
  }

  const ALL_RULES := {OneController, OneAtATime, RegisteredOnce, StateReadable}

  predicate Follows(rules: set<Rule>, owner: Pid -> nat, f: Fleet, e: Event) {
    forall rule | rule in rules :: Obeys(rule, owner, f, e)
  }

  predicate ByTheRules(owner: Pid -> nat, f: Fleet, e: Event) {
    && (Acting(e).Some? ==> Acting(e).value == OwnChair(owner, Acting(e).value.p))
    && (e.Register? ==> e.p !in f.table.entries)
    && (e.ReadState? ==> e.up)
  }

  function OwnChair(owner: Pid -> nat, p: Pid): Chair {
    Chair(owner(p), p, 0)
  }

  lemma AllRules(owner: Pid -> nat, f: Fleet, e: Event)
    ensures Follows(ALL_RULES, owner, f, e) <==> ByTheRules(owner, f, e)
  {
    if Follows(ALL_RULES, owner, f, e) {
      assert Obeys(OneController, owner, f, e) && Obeys(OneAtATime, owner, f, e);
      assert Obeys(RegisteredOnce, owner, f, e) && Obeys(StateReadable, owner, f, e);
    }
  }

  /** Every step is possible and follows the rules. */
  predicate LawfulRun(cfg: Config, owner: Pid -> nat, rules: set<Rule>, f: Fleet, es: seq<Event>)
    decreases |es|
  {
    es == [] || (Enabled(cfg, f, es[0]) && Follows(rules, owner, f, es[0])
                 && LawfulRun(cfg, owner, rules, Step(cfg, f, es[0]), es[1..]))
  }

  predicate Possible(cfg: Config, f: Fleet, es: seq<Event>)
    decreases |es|
  {
    es == [] || (Enabled(cfg, f, es[0]) && Possible(cfg, Step(cfg, f, es[0]), es[1..]))
  }

  function Run(cfg: Config, f: Fleet, es: seq<Event>): Fleet
    requires Possible(cfg, f, es)
    decreases |es|
  {
    if es == [] then f else Run(cfg, Step(cfg, f, es[0]), es[1..])
  }

  // ---------- safety ----------

  /** Every write in flight is bound for the placement reads resolve to. */
  predicate OnTarget(f: Fleet, w: Write) {
    w.p in f.table.entries && w.dest == f.table.entries[w.p].state.ReadPlacement()
  }

  predicate NoStrayWrite(f: Fleet) {
    forall w | w in f.inFlight :: OnTarget(f, f.inFlight[w])
  }

  /** A write is within its deadline, and was admitted before any current cutover. */
  predicate Timely(cfg: Config, f: Fleet, w: Write) {
    && w.admittedAt <= f.now < w.admittedAt + cfg.timeout
    && (InCutover(f.table, w.p) ==> w.p in f.since && w.admittedAt <= f.since[w.p])
  }

  /** A decision at the current epoch names the current placement. */
  predicate Fresh(f: Fleet, r: Resolved) {
    r.p in f.table.entries && r.epoch <= f.table.entries[r.p].epoch
    && (r.epoch == f.table.entries[r.p].epoch ==> r.dest == f.table.entries[r.p].state.ReadPlacement())
  }

  /** The owner's view of a partition: no stamp is older than the cutover it times, no
      flip is under way before the barrier has passed. */
  predicate Steady(cfg: Config, f: Fleet, p: Pid, s: Seat) {
    && (InCutover(f.table, p) ==> p in f.since && f.since[p] <= f.now)
    && (InCutover(f.table, p) && !s.pc.Published? && s.stamp.Some? ==> f.since[p] <= s.stamp.value)
    && (!InCutover(f.table, p) && !s.pc.Clearing? ==> s.stamp.None?)
    && (s.pc.Published? ==> InCutover(f.table, p))
    && (s.pc.Clearing? ==> !InCutover(f.table, p))
    && (s.pc.Completing? ==> s.pc.now <= f.now && (InCutover(f.table, p) ==> f.since[p] <= s.pc.now))
    && (s.pc.Flipping? && InCutover(f.table, p) ==> f.since[p] + cfg.barrier <= f.now)
  }

  predicate Safe(cfg: Config, f: Fleet) {
    && Placement.Valid(f.table)
    && NoStrayWrite(f)
    && (forall w | w in f.inFlight :: Timely(cfg, f, f.inFlight[w]))
    && (forall w | w in f.resolved :: Fresh(f, f.resolved[w]))
  }

  ghost predicate Inv(cfg: Config, owner: Pid -> nat, f: Fleet) {
    Safe(cfg, f) && forall p: Pid :: Steady(cfg, f, p, SeatOf(f, OwnChair(owner, p)))
  }

  lemma StartIsInv(cfg: Config, owner: Pid -> nat)
    ensures Inv(cfg, owner, START)
  {
  }

  // ---------- writers ----------

  lemma ResolveKeeps(cfg: Config, f: Fleet, w: nat, p: Pid)
    requires Safe(cfg, f) && Enabled(cfg, f, Resolve(w, p))
    ensures Safe(cfg, Step(cfg, f, Resolve(w, p)))
  {
  }

  lemma TimeKeeps(cfg: Config, f: Fleet, e: Event)
    requires Safe(cfg, f) && Enabled(cfg, f, e) && (e.Tick? || e.Finish?)
    ensures Safe(cfg, Step(cfg, f, e))
  {
  }

  lemma GateKeeps(cfg: Config, f: Fleet, w: nat)
    requires Safe(cfg, f) && Enabled(cfg, f, Gate(w)) && cfg.timeout > 0
    ensures Safe(cfg, Step(cfg, f, Gate(w)))
  {
    var r := f.resolved[w];
    assert Fresh(f, r);
  }

  // ---------- one partition's state moves ----------

  /** The partition moves on without its readers noticing. */
  lemma MoveKeeps(cfg: Config, f: Fleet, g: Fleet, p: Pid, s: PartitionState)
    requires Safe(cfg, f) && g == f.(table := Stamped(f.table, p, s), stamps := g.stamps, pcs := g.pcs,
                                     since := g.since)
    requires p in f.table.entries ==> s.ReadPlacement() == f.table.entries[p].state.ReadPlacement()
    requires s.InCutover() ==> p in g.since && g.since[p] == g.now
    requires forall q | q != p && q in f.since :: q in g.since && g.since[q] == f.since[q]
    ensures Safe(cfg, g)
  {
    forall w | w in g.inFlight
      ensures OnTarget(g, g.inFlight[w]) && Timely(cfg, g, g.inFlight[w])
    {
      assert OnTarget(f, f.inFlight[w]) && Timely(cfg, f, f.inFlight[w]);
    }
    forall w | w in g.resolved
      ensures Fresh(g, g.resolved[w])
    {
      assert Fresh(f, f.resolved[w]);
    }
  }

  /** The pointer flips: no write to the old placement can still be in flight. */
  lemma FlipKeeps(cfg: Config, f: Fleet, p: Pid, pcs: map<Chair, Pc>)
    requires Safe(cfg, f) && InCutover(f.table, p) && cfg.timeout <= cfg.barrier
    requires p in f.since && f.since[p] + cfg.barrier <= f.now
    ensures forall w | w in f.inFlight :: f.inFlight[w].p != p
    ensures Safe(cfg, f.(table := CompleteMigration(f.table, p).value, pcs := pcs))
  {
    var g := f.(table := CompleteMigration(f.table, p).value, pcs := pcs);
    forall w | w in f.inFlight
      ensures f.inFlight[w].p != p && OnTarget(g, g.inFlight[w]) && Timely(cfg, g, g.inFlight[w])
    {
      assert OnTarget(f, f.inFlight[w]) && Timely(cfg, f, f.inFlight[w]);
    }
    forall w | w in g.resolved
      ensures Fresh(g, g.resolved[w])
    {
      assert Fresh(f, f.resolved[w]);
    }
  }

  lemma SeatsDecideNothing(cfg: Config, f: Fleet, stamps: map<Desk, nat>, pcs: map<Chair, Pc>)
    requires Safe(cfg, f)
    ensures Safe(cfg, f.(stamps := stamps, pcs := pcs))
  {
  }

  /** Every lawful step keeps every write in flight on target. */
  lemma SafeStep(cfg: Config, owner: Pid -> nat, f: Fleet, e: Event)
    requires Inv(cfg, owner, f) && Enabled(cfg, f, e) && ByTheRules(owner, f, e)
    requires 0 < cfg.timeout <= cfg.barrier
    ensures Safe(cfg, Step(cfg, f, e))
  {
    hide Safe, Steady, Remaining, Inv;
    InvIsSafe(cfg, owner, f);
    match e
    case Resolve(w, p) => ResolveKeeps(cfg, f, w, p);
    case Gate(w) => GateKeeps(cfg, f, w);
    case Tick => TimeKeeps(cfg, f, e);
    case Finish(w) => TimeKeeps(cfg, f, e);
    case Flip(x, up) => SafeFlip(cfg, owner, f, x, up);
    case _ => QuietMove(cfg, owner, f, e);
  }

  lemma QuietMove(cfg: Config, owner: Pid -> nat, f: Fleet, e: Event)
    requires Safe(cfg, f) && Enabled(cfg, f, e) && ByTheRules(owner, f, e)
    requires e.Register? || e.Restart? || (Acting(e).Some? && !e.Flip?)
    ensures Safe(cfg, Step(cfg, f, e))
  {
    hide Safe, Remaining;
    var g := Step(cfg, f, e);
    if g.table != f.table {
      var p := if e.Register? then e.p else e.x.p;
      MoveKeeps(cfg, f, g, p, g.table.entries[p].state);
    } else {
      SeatsDecideNothing(cfg, f, g.stamps, g.pcs);
    }
  }

  lemma SafeFlip(cfg: Config, owner: Pid -> nat, f: Fleet, x: Chair, up: bool)
    requires Inv(cfg, owner, f) && SeatOf(f, x).pc.Flipping? && x == OwnChair(owner, x.p)
    requires 0 < cfg.timeout <= cfg.barrier
    ensures Safe(cfg, Step(cfg, f, Flip(x, up)))
  {
    var g := Step(cfg, f, Flip(x, up));
    if up && CompleteMigration(f.table, x.p).Ok? {
      assert Steady(cfg, f, x.p, SeatOf(f, OwnChair(owner, x.p)));
      FlipKeeps(cfg, f, x.p, g.pcs);
    }
  }

  // ---------- controllers ----------

  /** A step that leaves the partition and its owner's seat alone leaves it steady. */
  lemma OthersSteady(cfg: Config, f: Fleet, g: Fleet, p: Pid, s: Seat)
    requires Steady(cfg, f, p, s) && f.now <= g.now
    requires InCutover(g.table, p) == InCutover(f.table, p)
    requires InCutover(f.table, p) ==> p in f.since && p in g.since && g.since[p] == f.since[p]
    ensures Steady(cfg, g, p, s)
  {
  }

  lemma OwnSteady(cfg: Config, owner: Pid -> nat, f: Fleet, e: Event)
    requires Inv(cfg, owner, f) && Enabled(cfg, f, e) && ByTheRules(owner, f, e) && Acting(e).Some?
    ensures var x := Acting(e).value; var g := Step(cfg, f, e); Steady(cfg, g, x.p, SeatOf(g, x))
  {
    hide Safe, Steady, Step, Enabled;
    var x := Acting(e).value;
    assert x == OwnChair(owner, x.p);
    assert Steady(cfg, f, x.p, SeatOf(f, x));
    if e.ReadState? {
      ReadSteady(cfg, f, x);
    } else {
      ActSteady(cfg, f, e, x);
    }
  }

  /** The barrier check: it lets a flip proceed only once the barrier has passed. */
  lemma ReadSteady(cfg: Config, f: Fleet, x: Chair)
    requires Steady(cfg, f, x.p, SeatOf(f, x)) && Enabled(cfg, f, ReadState(x, true))
    ensures var g := Step(cfg, f, ReadState(x, true)); Steady(cfg, g, x.p, SeatOf(g, x))
  {
  }

  lemma ActSteady(cfg: Config, f: Fleet, e: Event, x: Chair)
    requires Steady(cfg, f, x.p, SeatOf(f, x)) && Enabled(cfg, f, e) && Acting(e) == Some(x) && !e.ReadState?
    ensures var g := Step(cfg, f, e); Steady(cfg, g, x.p, SeatOf(g, x))
  {
    hide Remaining, Admits;
    if e.BeginStep? || e.Publish? || e.Flip? || e.AbortStep? {
      MovesCutover(f.table, x.p, if e.BeginStep? then e.to else Target([], []));
      hide InCutover, BeginMigration, EnterCutover, CompleteMigration, AbortMigration;
    }
  }

  /** A restart forgets the stamp and every operation under way, and nothing else. */
  lemma RestartSteady(cfg: Config, f: Fleet, d: Desk, x: Chair)
    requires Steady(cfg, f, x.p, SeatOf(f, x))
    ensures var g := Step(cfg, f, Restart(d)); Steady(cfg, g, x.p, SeatOf(g, x))
  {
    hide Remaining, InCutover;
    var g := Step(cfg, f, Restart(d));
    if d == x.AtDesk() {
      assert SeatOf(g, x) == Seat(None, Idle);
    } else {
      assert SeatOf(g, x) == SeatOf(f, x);
    }
  }

  lemma SteadyStep(cfg: Config, owner: Pid -> nat, f: Fleet, e: Event, p: Pid)
    requires Inv(cfg, owner, f) && Enabled(cfg, f, e) && ByTheRules(owner, f, e)
    ensures var g := Step(cfg, f, e); Steady(cfg, g, p, SeatOf(g, OwnChair(owner, p)))
  {
    hide Safe, Steady;
    if Acting(e).Some? && Acting(e).value.p == p {
      OwnSteady(cfg, owner, f, e);
    } else if e.Restart? {
      RestartSteady(cfg, f, e.d, OwnChair(owner, p));
    } else {
      Untouched(cfg, owner, f, e, p);
    }
  }

  lemma Untouched(cfg: Config, owner: Pid -> nat, f: Fleet, e: Event, p: Pid)
    requires Inv(cfg, owner, f) && Enabled(cfg, f, e) && ByTheRules(owner, f, e)
    requires (Acting(e).None? && !e.Restart?) || (Acting(e).Some? && Acting(e).value.p != p)
    ensures var g := Step(cfg, f, e); Steady(cfg, g, p, SeatOf(g, OwnChair(owner, p)))
  {
    hide Safe, Step, Enabled;
    var x := OwnChair(owner, p);
    assert Steady(cfg, f, p, SeatOf(f, x));
    Elsewhere(cfg, f, e, x);
    OthersSteady(cfg, f, Step(cfg, f, e), p, SeatOf(f, x));
  }

  /** What a step on another partition, or no controller's step, leaves alone. */
  lemma Elsewhere(cfg: Config, f: Fleet, e: Event, x: Chair)
    requires Enabled(cfg, f, e) && (if Acting(e).Some? then Acting(e).value.p != x.p else !e.Restart?)
    requires e.Register? ==> e.p !in f.table.entries
    ensures var g := Step(cfg, f, e);
            && f.now <= g.now && SeatOf(g, x) == SeatOf(f, x)
            && InCutover(g.table, x.p) == InCutover(f.table, x.p)
            && (x.p in f.since ==> x.p in g.since && g.since[x.p] == f.since[x.p])
  {
    hide Step, InCutover;
    SeatElsewhere(cfg, f, e, x);
    if Acting(e).Some? {
      CutoverElsewhere(cfg, f, e, x);
    } else {
      CutoverUnmoved(cfg, f, e, x.p);
    }
  }

  /** An operation touches its own place and its controller's stamp, and no other. */
  predicate Touches(f: Fleet, g: Fleet, y: Chair) {
    && f.now <= g.now
    && g.pcs - {y} == f.pcs - {y}
    && g.stamps - {y.AtDesk()} == f.stamps - {y.AtDesk()}
  }

  lemma SeatElsewhere(cfg: Config, f: Fleet, e: Event, x: Chair)
    requires Enabled(cfg, f, e) && (if Acting(e).Some? then Acting(e).value.p != x.p else !e.Restart?)
    ensures var g := Step(cfg, f, e); f.now <= g.now && SeatOf(g, x) == SeatOf(f, x)
  {
    hide Step, Enabled;
    var g := Step(cfg, f, e);
    if Acting(e).Some? {
      var y := Acting(e).value;
      StepTouches(cfg, f, e, y);
      SameEntry(g.pcs, f.pcs, y, x);
      SameEntry(g.stamps, f.stamps, y.AtDesk(), x.AtDesk());
    } else {
      NoSeat(cfg, f, e);
    }
  }

  lemma SameEntry<K, V>(a: map<K, V>, b: map<K, V>, y: K, x: K)
    requires a - {y} == b - {y} && x != y
    ensures (x in a <==> x in b) && (x in a ==> a[x] == b[x])
  {
    assert x in a <==> x in a - {y};
    assert x in b <==> x in b - {y};
    if x in a {
      assert (a - {y})[x] == (b - {y})[x];
    }
  }

  lemma NoSeat(cfg: Config, f: Fleet, e: Event)
    requires Enabled(cfg, f, e) && Acting(e).None? && !e.Restart?
    ensures var g := Step(cfg, f, e); f.now <= g.now && g.pcs == f.pcs && g.stamps == f.stamps
  {
    hide Admits, Stamped;
  }

  lemma StepTouches(cfg: Config, f: Fleet, e: Event, y: Chair)
    requires Enabled(cfg, f, e) && Acting(e) == Some(y)
    ensures Touches(f, Step(cfg, f, e), y)
  {
    hide Step, Enabled, Touches;
    PlaceMoves(cfg, f, e, y);
    StampMoves(cfg, f, e, y);
    TouchesOne(f, Step(cfg, f, e), y);
  }

  lemma PlaceMoves(cfg: Config, f: Fleet, e: Event, y: Chair)
    requires Enabled(cfg, f, e) && Acting(e) == Some(y)
    ensures var g := Step(cfg, f, e);
            g.now == f.now && (g.pcs == f.pcs || (y in g.pcs && g.pcs == f.pcs[y := g.pcs[y]]))
  {
    hide Remaining, InCutover, BeginMigration, EnterCutover, CompleteMigration, AbortMigration, PcOf, StampAt, SeatOf;
    hide Enabled;
    if e.ReadState? {
      ReadMoves(cfg, f, y, e.up);
      hide Step;
    }
  }

  lemma ReadMoves(cfg: Config, f: Fleet, x: Chair, up: bool)
    requires Enabled(cfg, f, ReadState(x, up))
    ensures var g := Step(cfg, f, ReadState(x, up));
            && g.now == f.now && x in g.pcs && g.pcs == f.pcs[x := g.pcs[x]]
            && (|| g.stamps == f.stamps
                || (x.AtDesk() in g.stamps && g.stamps == f.stamps[x.AtDesk() := g.stamps[x.AtDesk()]]))
  {
    hide Remaining, InCutover;
  }

  lemma StampMoves(cfg: Config, f: Fleet, e: Event, y: Chair)
    requires Enabled(cfg, f, e) && Acting(e) == Some(y)
    ensures var g, d := Step(cfg, f, e), y.AtDesk();
            || g.stamps == f.stamps || g.stamps == f.stamps - {d}
            || (d in g.stamps && g.stamps == f.stamps[d := g.stamps[d]])
  {
    hide Remaining, InCutover, BeginMigration, EnterCutover, CompleteMigration, AbortMigration, PcOf, StampAt, SeatOf;
    hide Enabled;
    if e.ReadState? {
      ReadMoves(cfg, f, y, e.up);
      hide Step;
    }
  }

  lemma TouchesOne(f: Fleet, g: Fleet, y: Chair)
    requires g.now == f.now && (g.pcs == f.pcs || (y in g.pcs && g.pcs == f.pcs[y := g.pcs[y]]))
    requires var d := y.AtDesk();
             || g.stamps == f.stamps || g.stamps == f.stamps - {d}
             || (d in g.stamps && g.stamps == f.stamps[d := g.stamps[d]])
    ensures Touches(f, g, y)
  {
  }

  lemma CutoverElsewhere(cfg: Config, f: Fleet, e: Event, x: Chair)
    requires Enabled(cfg, f, e) && Acting(e).Some? && Acting(e).value.p != x.p
    ensures var g := Step(cfg, f, e);
            && InCutover(g.table, x.p) == InCutover(f.table, x.p)
            && (x.p in f.since ==> x.p in g.since && g.since[x.p] == f.since[x.p])
  {
    hide Remaining, Admits, InCutover, BeginMigration, EnterCutover, CompleteMigration, AbortMigration, StampAt, PcOf;
    OthersUnmoved(f.table, Acting(e).value.p, x.p, if e.BeginStep? then e.to else Target([], []));
  }

  lemma CutoverUnmoved(cfg: Config, f: Fleet, e: Event, p: Pid)
    requires Enabled(cfg, f, e) && Acting(e).None? && !e.Restart?
    requires e.Register? ==> e.p !in f.table.entries
    ensures var g := Step(cfg, f, e); InCutover(g.table, p) == InCutover(f.table, p) && g.since == f.since
  {
    hide Remaining, BeginMigration, EnterCutover, CompleteMigration, AbortMigration, StampAt, PcOf, Admits;
  }

  /** The invariant survives every interleaving of lawful steps. */
  lemma StepKeeps(cfg: Config, owner: Pid -> nat, f: Fleet, e: Event)
    requires Inv(cfg, owner, f) && Enabled(cfg, f, e) && ByTheRules(owner, f, e)
    requires 0 < cfg.timeout <= cfg.barrier
    ensures Inv(cfg, owner, Step(cfg, f, e))
  {
    hide Safe, Steady, Step, Enabled, ByTheRules;
    SafeStep(cfg, owner, f, e);
    forall p: Pid
      ensures var g := Step(cfg, f, e); Steady(cfg, g, p, SeatOf(g, OwnChair(owner, p)))
    {
      SteadyStep(cfg, owner, f, e, p);
    }
  }

  /** At the flip itself no write to the partition is in flight at all, so none lands in
      the old placement afterwards. */
  lemma NothingInFlightAtFlip(cfg: Config, owner: Pid -> nat, f: Fleet, x: Chair)
    requires Inv(cfg, owner, f) && Enabled(cfg, f, Flip(x, true)) && ByTheRules(owner, f, Flip(x, true))
    requires 0 < cfg.timeout <= cfg.barrier && CompleteMigration(f.table, x.p).Ok?
    ensures forall w | w in f.inFlight :: f.inFlight[w].p != x.p
  {
    assert Steady(cfg, f, x.p, SeatOf(f, OwnChair(owner, x.p)));
    FlipKeeps(cfg, f, x.p, f.pcs);
  }

  /** On every lawful run every write in flight is bound for the current placement. */
  lemma {:induction false} RunIsSafe(cfg: Config, owner: Pid -> nat, f: Fleet, es: seq<Event>)
    requires Inv(cfg, owner, f) && LawfulRun(cfg, owner, ALL_RULES, f, es) && 0 < cfg.timeout <= cfg.barrier
    ensures Possible(cfg, f, es) && Inv(cfg, owner, Run(cfg, f, es)) && NoStrayWrite(Run(cfg, f, es))
    decreases |es|
  {
    hide Inv, Step, Enabled, ByTheRules, Follows;
    if es == [] {
      InvIsSafe(cfg, owner, f);
    } else {
      AllRules(owner, f, es[0]);
      StepKeeps(cfg, owner, f, es[0]);
      RunIsSafe(cfg, owner, Step(cfg, f, es[0]), es[1..]);
    }
  }

  lemma InvIsSafe(cfg: Config, owner: Pid -> nat, f: Fleet)
    requires Inv(cfg, owner, f)
    ensures Safe(cfg, f) && NoStrayWrite(f)
  {
  }
}
