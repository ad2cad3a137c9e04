/**
  What each rule of operation is for. The runs that follow a set of rules are all safe
  exactly when the set is complete and writes time out within the drain barrier: for
  every rule there is a run that breaks only that one and strands a write.
*/
module MigrationRules {
  import opened Bytes
  import opened Placement
  import opened Migration

  // ---------- how a completion gets to the flip ----------

  /** Where `complete_migration` gets to, for a controller that finds the partition in
      cutover: to the flip exactly when the state could not be read, or its own stamp
      says the barrier has passed. A controller without a stamp waits a whole barrier. */
  lemma ReachesFlipIff(cfg: Config, f: Fleet, x: Chair, up: bool)
    requires PcOf(f, x).Idle? && InCutover(f.table, x.p)
    ensures Possible(cfg, f, [StartComplete(x), ReadState(x, up)])
    ensures var g := Run(cfg, f, [StartComplete(x), ReadState(x, up)]);
            var stamp := SeatOf(f, x).stamp;
            && g.table == f.table && g.inFlight == f.inFlight
            && (PcOf(g, x).Flipping? <==>
                  !up || cfg.barrier == 0 || (stamp.Some? && stamp.value + cfg.barrier <= f.now))
            && (stamp.None? && up ==> SeatOf(g, x).stamp == Some(f.now))
  {
    var a := [StartComplete(x), ReadState(x, up)];
    var f1 := Step(cfg, f, a[0]);
    assert a[1..] == [ReadState(x, up)];
    var f2 := Step(cfg, f1, ReadState(x, up));
    assert [ReadState(x, up)][1..] == [];
    assert Possible(cfg, f1, [ReadState(x, up)]);
    assert Run(cfg, f1, [ReadState(x, up)]) == f2;
  }

  /** The controller object's `Complete` is these steps with nothing in between: it waits
      by the same rule, flips the same table, and leaves the same stamp. */
  lemma CompleteIsSteps(cfg: Config, f: Fleet, x: Chair, readUp: bool, flipUp: bool) returns (g: Fleet, h: Fleet)
    requires PcOf(f, x).Idle?
    ensures var read := [StartComplete(x), ReadState(x, readUp)]; Possible(cfg, f, read) && g == Run(cfg, f, read)
    ensures var s := SeatOf(f, x);
            var seen := readUp && InCutover(f.table, x.p);
            var left := Remaining(cfg.barrier, s.stamp, f.now, seen);
            var stamped := if seen && s.stamp.None? then Some(f.now) else s.stamp;
            g.table == f.table && SeatOf(g, x) == Seat(stamped, if left > 0 then Idle else Flipping)
    ensures PcOf(g, x).Flipping? ==>
              h == Step(cfg, g, Flip(x, flipUp))
              && match (if flipUp then CompleteMigration(f.table, x.p) else Err(Backend))
                 case Ok(t) => h.table == t && PcOf(h, x).Clearing?
                   && SeatOf(Step(cfg, h, Clear(x)), x) == Seat(None, Idle)
                 case Err(_) => h.table == f.table && SeatOf(h, x) == SeatOf(g, x).(pc := Idle)
  {
    hide Remaining, CompleteMigration, InCutover, Step;
    CompleteReads(cfg, f, x, readUp);
    var f1 := Step(cfg, f, StartComplete(x));
    var a := [StartComplete(x), ReadState(x, readUp)];
    assert a[1..] == [ReadState(x, readUp)] && [ReadState(x, readUp)][1..] == [];
    g := Step(cfg, f1, ReadState(x, readUp));
    assert Possible(cfg, f1, [ReadState(x, readUp)]) && Run(cfg, f1, [ReadState(x, readUp)]) == g;
    h := g;
    if PcOf(g, x).Flipping? {
      FlipThenClear(cfg, g, x, flipUp);
      h := Step(cfg, g, Flip(x, flipUp));
    }
  }

  lemma CompleteReads(cfg: Config, f: Fleet, x: Chair, readUp: bool)
    requires PcOf(f, x).Idle?
    ensures var s := SeatOf(f, x);
            var seen := readUp && InCutover(f.table, x.p);
            var left := Remaining(cfg.barrier, s.stamp, f.now, seen);
            var stamped := if seen && s.stamp.None? then Some(f.now) else s.stamp;
            var f1 := Step(cfg, f, StartComplete(x));
            && Enabled(cfg, f1, ReadState(x, readUp))
            && var g := Step(cfg, f1, ReadState(x, readUp));
               g.table == f.table && SeatOf(g, x) == Seat(stamped, if left > 0 then Idle else Flipping)
  {
    hide Remaining, InCutover;
  }

  lemma FlipThenClear(cfg: Config, g: Fleet, x: Chair, flipUp: bool)
    requires PcOf(g, x).Flipping?
    ensures var h := Step(cfg, g, Flip(x, flipUp));
            match (if flipUp then CompleteMigration(g.table, x.p) else Err(Backend))
            case Ok(t) => h.table == t && PcOf(h, x).Clearing? && SeatOf(Step(cfg, h, Clear(x)), x) == Seat(None, Idle)
            case Err(_) => h.table == g.table && SeatOf(h, x) == Seat(StampAt(g, x.AtDesk()), Idle)
  {
    hide CompleteMigration;
  }

  // ---------- reachable states ----------

  /** A run that follows the rules leads from `f` to `g`. */
  ghost predicate Leads(cfg: Config, owner: Pid -> nat, rules: set<Rule>, f: Fleet, g: Fleet) {
    exists es :: LawfulRun(cfg, owner, rules, f, es) && Possible(cfg, f, es) && Run(cfg, f, es) == g
  }

  lemma Stays(cfg: Config, owner: Pid -> nat, rules: set<Rule>, f: Fleet)
    ensures Leads(cfg, owner, rules, f, f)
  {
    assert LawfulRun(cfg, owner, rules, f, []) && Possible(cfg, f, []) && Run(cfg, f, []) == f;
  }

  lemma {:induction false} RunThen(cfg: Config, owner: Pid -> nat, rules: set<Rule>, f: Fleet, a: seq<Event>,
                                   b: seq<Event>)
    requires LawfulRun(cfg, owner, rules, f, a) && Possible(cfg, f, a)
             && LawfulRun(cfg, owner, rules, Run(cfg, f, a), b)
    requires Possible(cfg, Run(cfg, f, a), b)
    ensures LawfulRun(cfg, owner, rules, f, a + b) && Possible(cfg, f, a + b)
    ensures Run(cfg, f, a + b) == Run(cfg, Run(cfg, f, a), b)
    decreases |a|
  {
    hide Step, Enabled, Follows;
    if a == [] {
      assert a + b == b;
    } else {
      assert (a + b)[1..] == a[1..] + b;
      RunThen(cfg, owner, rules, Step(cfg, f, a[0]), a[1..], b);
    }
  }

  lemma LeadsOn(cfg: Config, owner: Pid -> nat, rules: set<Rule>, f: Fleet, g: Fleet, h: Fleet)
    requires Leads(cfg, owner, rules, f, g) && Leads(cfg, owner, rules, g, h)
    ensures Leads(cfg, owner, rules, f, h)
  {
    hide Run, LawfulRun, Possible;
    var a :| LawfulRun(cfg, owner, rules, f, a) && Possible(cfg, f, a) && Run(cfg, f, a) == g;
    var b :| LawfulRun(cfg, owner, rules, g, b) && Possible(cfg, g, b) && Run(cfg, g, b) == h;
    RunThen(cfg, owner, rules, f, a, b);
  }

  lemma Then(cfg: Config, owner: Pid -> nat, rules: set<Rule>, f: Fleet, g: Fleet, e: Event)
    requires Leads(cfg, owner, rules, f, g) && Enabled(cfg, g, e) && Follows(rules, owner, g, e)
    ensures Leads(cfg, owner, rules, f, Step(cfg, g, e))
  {
    hide Leads, Step, Enabled, Follows;
    OneStep(cfg, owner, rules, g, e);
    LeadsOn(cfg, owner, rules, f, g, Step(cfg, g, e));
  }

  lemma OneStep(cfg: Config, owner: Pid -> nat, rules: set<Rule>, f: Fleet, e: Event)
    requires Enabled(cfg, f, e) && Follows(rules, owner, f, e)
    ensures Leads(cfg, owner, rules, f, Step(cfg, f, e))
  {
    hide Step, Enabled, Follows;
    var g := Step(cfg, f, e);
    assert [e][1..] == [];
    assert LawfulRun(cfg, owner, rules, g, []) && Possible(cfg, g, []) && Run(cfg, g, []) == g;
    assert LawfulRun(cfg, owner, rules, f, [e]) && Possible(cfg, f, [e]) && Run(cfg, f, [e]) == g;
  }

  /** Following more rules is harder. */
  lemma {:induction false} FewerRules(cfg: Config, owner: Pid -> nat, rules: set<Rule>, fewer: set<Rule>, f: Fleet,
                                      es: seq<Event>)
    requires fewer <= rules && LawfulRun(cfg, owner, rules, f, es)
    ensures LawfulRun(cfg, owner, fewer, f, es)
    decreases |es|
  {
    hide Step, Enabled, Obeys;
    if es != [] {
      FewerRules(cfg, owner, rules, fewer, Step(cfg, f, es[0]), es[1..]);
    }
  }

  lemma LeadsWithFewer(cfg: Config, owner: Pid -> nat, rules: set<Rule>, fewer: set<Rule>, f: Fleet, g: Fleet)
    requires fewer <= rules && Leads(cfg, owner, rules, f, g)
    ensures Leads(cfg, owner, fewer, f, g)
  {
    hide Run, LawfulRun, Possible;
    var es :| LawfulRun(cfg, owner, rules, f, es) && Possible(cfg, f, es) && Run(cfg, f, es) == g;
    FewerRules(cfg, owner, rules, fewer, f, es);
  }

  /** Time passes. */
  lemma {:induction false} Wait(cfg: Config, owner: Pid -> nat, rules: set<Rule>, f: Fleet, n: nat)
    requires forall w | w in f.inFlight :: f.now + n < f.inFlight[w].admittedAt + cfg.timeout
    ensures Leads(cfg, owner, rules, f, f.(now := f.now + n))
    decreases n
  {
    hide Leads;
    if n == 0 {
      Stays(cfg, owner, rules, f);
    } else {
      Wait(cfg, owner, rules, f, n - 1);
      Then(cfg, owner, rules, f, f.(now := f.now + n - 1), Tick);
    }
  }

  // ---------- one partition, one write ----------

  const P: Pid := [0x70]
  const OLD_HOME := Target([0x61], [])
  const NEW_HOME := Target([0x62], [])

  /** Partition `P` alone in the table. */
  function Only(now: nat, s: PartitionState, epoch: nat, stamps: map<Desk, nat>, pcs: map<Chair, Pc>,
                inFlight: map<nat, Write>, since: map<Pid, nat>): Fleet {
    Fleet(now, Table(map[P := Entry(s, epoch)], epoch), stamps, pcs, map[], inFlight, since)
  }

  lemma Replaced(a: Entry, b: Entry)
    ensures map[P := a][P := b] == map[P := b]
  {
  }

  function Busy(admittedAt: nat): map<nat, Write> {
    map[0 := Write(P, OLD_HOME, admittedAt)]
  }

  const HOME := Active(OLD_HOME)
  const DRAIN := Migrating(OLD_HOME, NEW_HOME, Draining)
  const CUT := Migrating(OLD_HOME, NEW_HOME, Cutover)

  /** The chair may act under the rules. */
  predicate May(rules: set<Rule>, owner: Pid -> nat, x: Chair) {
    x.p == P && (OneController in rules ==> x.c == owner(P)) && (OneAtATime in rules ==> x.lane == 0)
  }

  lemma MayAct(rules: set<Rule>, owner: Pid -> nat, f: Fleet, e: Event)
    requires Acting(e).Some? && May(rules, owner, Acting(e).value)
    requires e.ReadState? && !e.up ==> StateReadable !in rules
    ensures Follows(rules, owner, f, e)
  {
  }

  lemma MayPass(rules: set<Rule>, owner: Pid -> nat, f: Fleet, e: Event)
    requires Acting(e).None?
    requires e.Register? && e.p in f.table.entries ==> RegisteredOnce !in rules
    ensures Follows(rules, owner, f, e)
  {
  }

  lemma Registers(cfg: Config, owner: Pid -> nat, rules: set<Rule>)
    ensures Leads(cfg, owner, rules, START, Only(0, HOME, 1, map[], map[], map[], map[]))
  {
    hide Leads, Follows;
    MayPass(rules, owner, START, Register(P, OLD_HOME));
    Stays(cfg, owner, rules, START);
    Then(cfg, owner, rules, START, START, Register(P, OLD_HOME));
  }

  /** A write resolves and passes the gate. */
  lemma WriteAdmitted(cfg: Config, owner: Pid -> nat, rules: set<Rule>, from: Fleet, f: Fleet)
    requires f == Only(f.now, HOME, f.table.generation, f.stamps, f.pcs, map[], f.since)
    requires Leads(cfg, owner, rules, from, f)
    ensures Leads(cfg, owner, rules, from, f.(inFlight := Busy(f.now)))
  {
    hide Leads, Follows;
    MayPass(rules, owner, f, Resolve(0, P));
    Then(cfg, owner, rules, from, f, Resolve(0, P));
    var g := Step(cfg, f, Resolve(0, P));
    MayPass(rules, owner, g, Gate(0));
    Then(cfg, owner, rules, from, g, Gate(0));
    assert g.resolved - {0} == map[];
  }

  lemma Begins(cfg: Config, owner: Pid -> nat, rules: set<Rule>, from: Fleet, f: Fleet, x: Chair)
    requires f == Only(f.now, HOME, f.table.generation, f.stamps, f.pcs, f.inFlight, f.since)
    requires Leads(cfg, owner, rules, from, f) && May(rules, owner, x) && PcOf(f, x).Idle?
    ensures Leads(cfg, owner, rules, from,
                  Only(f.now, DRAIN, f.table.generation + 1, f.stamps, f.pcs, f.inFlight, f.since))
  {
    hide Leads, Follows;
    Replaced(f.table.entries[P], Entry(DRAIN, f.table.generation + 1));
    MayAct(rules, owner, f, BeginStep(x, NEW_HOME, true));
    Then(cfg, owner, rules, from, f, BeginStep(x, NEW_HOME, true));
  }

  /** Cutover is published, and stamped in the same instant. */
  lemma Enters(cfg: Config, owner: Pid -> nat, rules: set<Rule>, from: Fleet, f: Fleet, x: Chair)
    requires f == Only(f.now, DRAIN, f.table.generation, f.stamps, f.pcs, f.inFlight, f.since)
    requires Leads(cfg, owner, rules, from, f) && May(rules, owner, x) && PcOf(f, x).Idle?
    ensures Leads(cfg, owner, rules, from,
                  Only(f.now, CUT, f.table.generation + 1, f.stamps[x.AtDesk() := f.now],
                       f.pcs[x := Published][x := Idle], f.inFlight, f.since[P := f.now]))
  {
    hide Leads, Follows;
    Replaced(f.table.entries[P], Entry(CUT, f.table.generation + 1));
    MayAct(rules, owner, f, Publish(x, true));
    Then(cfg, owner, rules, from, f, Publish(x, true));
    var g := Step(cfg, f, Publish(x, true));
    MayAct(rules, owner, g, Stamp(x));
    Then(cfg, owner, rules, from, g, Stamp(x));
  }

  lemma Aborts(cfg: Config, owner: Pid -> nat, rules: set<Rule>, from: Fleet, f: Fleet, x: Chair)
    requires f == Only(f.now, CUT, f.table.generation, f.stamps, f.pcs, f.inFlight, f.since)
    requires Leads(cfg, owner, rules, from, f) && May(rules, owner, x) && PcOf(f, x).Idle?
    ensures Leads(cfg, owner, rules, from,
                  Only(f.now, HOME, f.table.generation + 1, f.stamps - {x.AtDesk()},
                       f.pcs[x := Clearing][x := Idle], f.inFlight, f.since))
  {
    hide Leads, Follows;
    Replaced(f.table.entries[P], Entry(HOME, f.table.generation + 1));
    MayAct(rules, owner, f, AbortStep(x, true));
    Then(cfg, owner, rules, from, f, AbortStep(x, true));
    var g := Step(cfg, f, AbortStep(x, true));
    MayAct(rules, owner, g, Clear(x));
    Then(cfg, owner, rules, from, g, Clear(x));
  }

  /** A completion that sees no cutover, or finds the barrier passed, goes on to the flip. */
  lemma Completes(cfg: Config, owner: Pid -> nat, rules: set<Rule>, from: Fleet, f: Fleet, x: Chair, up: bool)
    requires Leads(cfg, owner, rules, from, f) && May(rules, owner, x) && PcOf(f, x).Idle?
    requires !up ==> StateReadable !in rules
    requires up && InCutover(f.table, P) ==>
               StampAt(f, x.AtDesk()).Some? && StampAt(f, x.AtDesk()).value + cfg.barrier <= f.now
    ensures Leads(cfg, owner, rules, from, f.(pcs := f.pcs[x := Completing(f.now)][x := Flipping]))
  {
    hide Leads, Follows;
    MayAct(rules, owner, f, StartComplete(x));
    Then(cfg, owner, rules, from, f, StartComplete(x));
    var g := Step(cfg, f, StartComplete(x));
    MayAct(rules, owner, g, ReadState(x, up));
    Then(cfg, owner, rules, from, g, ReadState(x, up));
  }

  /** A flip with a write still in flight strands that write. */
  lemma EarlyFlipStrands(cfg: Config, f: Fleet, x: Chair, w: nat)
    requires PcOf(f, x).Flipping? && InCutover(f.table, x.p)
    requires w in f.inFlight && f.inFlight[w].p == x.p && OnTarget(f, f.inFlight[w])
    requires f.table.entries[x.p].state.from != f.table.entries[x.p].state.to
    ensures !NoStrayWrite(Step(cfg, f, Flip(x, true)))
  {
    var g := Step(cfg, f, Flip(x, true));
    assert !OnTarget(g, g.inFlight[w]);
  }

  lemma Strands(cfg: Config, owner: Pid -> nat, rules: set<Rule>, from: Fleet, f: Fleet, x: Chair, admittedAt: nat)
    returns (g: Fleet)
    requires f == Only(f.now, CUT, f.table.generation, f.stamps, f.pcs, Busy(admittedAt), f.since)
    requires Leads(cfg, owner, rules, from, f) && May(rules, owner, x) && PcOf(f, x).Flipping?
    ensures Leads(cfg, owner, rules, from, g) && !NoStrayWrite(g)
  {
    hide Leads, Follows;
    MayAct(rules, owner, f, Flip(x, true));
    Then(cfg, owner, rules, from, f, Flip(x, true));
    assert OnTarget(f, f.inFlight[0]);
    EarlyFlipStrands(cfg, f, x, 0);
    g := Step(cfg, f, Flip(x, true));
  }

  // ---------- what goes wrong without each rule ----------

  /** A write is admitted, and the owner then enters cutover in the same instant. */
  lemma Prelude(cfg: Config, owner: Pid -> nat, rules: set<Rule>) returns (f: Fleet)
    ensures Leads(cfg, owner, rules, START, f)
    ensures var x := OwnChair(owner, P);
            f == Only(0, CUT, 3, map[x.AtDesk() := 0], map[x := Idle], Busy(0), map[P := 0])
  {
    hide Leads;
    var x := OwnChair(owner, P);
    Registers(cfg, owner, rules);
    WriteAdmitted(cfg, owner, rules, START, Only(0, HOME, 1, map[], map[], map[], map[]));
    Begins(cfg, owner, rules, START, Only(0, HOME, 1, map[], map[], Busy(0), map[]), x);
    Enters(cfg, owner, rules, START, Only(0, DRAIN, 2, map[], map[], Busy(0), map[]), x);
    f := Only(0, CUT, 3, map[x.AtDesk() := 0], map[x := Idle], Busy(0), map[P := 0]);
    assert map[x := Published][x := Idle] == map[x := Idle];
  }

  /** The barrier must be at least the write timeout: with a shorter one there is a
      lawful run on which a write lands in the old placement after the flip. */
  lemma ShortBarrierStrands(cfg: Config, owner: Pid -> nat) returns (g: Fleet)
    requires cfg.barrier < cfg.timeout
    ensures Leads(cfg, owner, ALL_RULES, START, g) && !NoStrayWrite(g)
  {
    hide Leads;
    var x := OwnChair(owner, P);
    var f := Prelude(cfg, owner, ALL_RULES);
    Wait(cfg, owner, ALL_RULES, f, cfg.barrier);
    var f1 := f.(now := cfg.barrier);
    LeadsOn(cfg, owner, ALL_RULES, START, f, f1);
    Completes(cfg, owner, ALL_RULES, START, f1, x, true);
    g := Strands(cfg, owner, ALL_RULES, START, f1.(pcs := f1.pcs[x := Completing(f1.now)][x := Flipping]), x, 0);
  }

  /** A state that cannot be read counts as not in cutover, and the barrier is skipped. */
  lemma UnreadableStrands(cfg: Config, owner: Pid -> nat) returns (g: Fleet)
    ensures Leads(cfg, owner, ALL_RULES - {StateReadable}, START, g) && !NoStrayWrite(g)
  {
    hide Leads;
    var x, rules := OwnChair(owner, P), ALL_RULES - {StateReadable};
    var f := Prelude(cfg, owner, rules);
    Completes(cfg, owner, rules, START, f, x, false);
    g := Strands(cfg, owner, rules, START, f.(pcs := f.pcs[x := Completing(f.now)][x := Flipping]), x, 0);
  }

  /** A completion that read the state before cutover flips after it: `complete_migration`
      overlapping `enter_cutover` on one controller. */
  lemma OverlapStrands(cfg: Config, owner: Pid -> nat) returns (g: Fleet)
    ensures Leads(cfg, owner, ALL_RULES - {OneAtATime}, START, g) && !NoStrayWrite(g)
  {
    hide Leads;
    var x, rules := OwnChair(owner, P), ALL_RULES - {OneAtATime};
    var y := x.(lane := 1);
    Registers(cfg, owner, rules);
    WriteAdmitted(cfg, owner, rules, START, Only(0, HOME, 1, map[], map[], map[], map[]));
    Begins(cfg, owner, rules, START, Only(0, HOME, 1, map[], map[], Busy(0), map[]), x);
    var f := Only(0, DRAIN, 2, map[], map[], Busy(0), map[]);
    Completes(cfg, owner, rules, START, f, y, true);
    var f1 := f.(pcs := f.pcs[y := Completing(f.now)][y := Flipping]);
    Enters(cfg, owner, rules, START, f1, x);
    g := Strands(cfg, owner, rules, START,
                 Only(0, CUT, 3, f1.stamps[x.AtDesk() := 0], f1.pcs[x := Published][x := Idle], Busy(0),
                      f1.since[P := 0]), y, 0);
  }

  /** Registering a partition again moves it under the writes in flight. */
  lemma ReregisterStrands(cfg: Config, owner: Pid -> nat) returns (g: Fleet)
    ensures Leads(cfg, owner, ALL_RULES - {RegisteredOnce}, START, g) && !NoStrayWrite(g)
  {
    hide Leads;
    var rules := ALL_RULES - {RegisteredOnce};
    Registers(cfg, owner, rules);
    WriteAdmitted(cfg, owner, rules, START, Only(0, HOME, 1, map[], map[], map[], map[]));
    var f := Only(0, HOME, 1, map[], map[], Busy(0), map[]);
    MayPass(rules, owner, f, Register(P, NEW_HOME));
    Then(cfg, owner, rules, START, f, Register(P, NEW_HOME));
    g := Step(cfg, f, Register(P, NEW_HOME));
    assert !OnTarget(g, g.inFlight[0]);
  }

  /** A second controller keeps the stamp of a cutover that the owner aborted. When the
      owner enters cutover again, a barrier later, that stamp lets the second controller
      complete at once. */
  lemma SecondControllerStrands(cfg: Config, owner: Pid -> nat) returns (g: Fleet)
    requires 0 < cfg.timeout
    ensures Leads(cfg, owner, ALL_RULES - {OneController}, START, g) && !NoStrayWrite(g)
  {
    hide Leads;
    var x, rules := OwnChair(owner, P), ALL_RULES - {OneController};
    var y := x.(c := x.c + 1);
    Registers(cfg, owner, rules);
    Begins(cfg, owner, rules, START, Only(0, HOME, 1, map[], map[], map[], map[]), y);
    Enters(cfg, owner, rules, START, Only(0, DRAIN, 2, map[], map[], map[], map[]), y);
    var f := Only(0, CUT, 3, map[y.AtDesk() := 0], map[y := Published][y := Idle], map[], map[P := 0]);
    Aborts(cfg, owner, rules, START, f, x);
    var f1 := Only(0, HOME, 4, f.stamps - {x.AtDesk()}, f.pcs[x := Clearing][x := Idle], map[], f.since);
    Wait(cfg, owner, rules, f1, cfg.barrier);
    var f2 := f1.(now := cfg.barrier);
    LeadsOn(cfg, owner, rules, START, f1, f2);
    g := StaleStampStrands(cfg, owner, rules, f2, x, y);
  }

  lemma StaleStampStrands(cfg: Config, owner: Pid -> nat, rules: set<Rule>, f: Fleet, x: Chair, y: Chair)
    returns (g: Fleet)
    requires f == Only(cfg.barrier, HOME, 4, f.stamps, f.pcs, map[], f.since) && Leads(cfg, owner, rules, START, f)
    requires May(rules, owner, x) && May(rules, owner, y) && x.c != y.c && PcOf(f, x).Idle? && PcOf(f, y).Idle?
    requires StampAt(f, y.AtDesk()) == Some(0)
    ensures Leads(cfg, owner, rules, START, g) && !NoStrayWrite(g)
  {
    hide Leads;
    var now := cfg.barrier;
    WriteAdmitted(cfg, owner, rules, START, f);
    Begins(cfg, owner, rules, START, f.(inFlight := Busy(now)), x);
    Enters(cfg, owner, rules, START, Only(now, DRAIN, 5, f.stamps, f.pcs, Busy(now), f.since), x);
    var f1 := Only(now, CUT, 6, f.stamps[x.AtDesk() := now], f.pcs[x := Published][x := Idle], Busy(now),
                   f.since[P := now]);
    Completes(cfg, owner, rules, START, f1, y, true);
    g := Strands(cfg, owner, rules, START, f1.(pcs := f1.pcs[y := Completing(now)][y := Flipping]), y, now);
  }

  /** Without any one of the rules, whatever the barrier, a run that follows all the
      others strands a write. */
  lemma EachRuleMatters(cfg: Config, owner: Pid -> nat, rule: Rule) returns (g: Fleet)
    requires 0 < cfg.timeout
    ensures Leads(cfg, owner, ALL_RULES - {rule}, START, g) && !NoStrayWrite(g)
  {
    match rule
    case OneController => g := SecondControllerStrands(cfg, owner);
    case OneAtATime => g := OverlapStrands(cfg, owner);
    case RegisteredOnce => g := ReregisterStrands(cfg, owner);
    case StateReadable => g := UnreadableStrands(cfg, owner);
  }

  /** Fleet-wide safety, exactly: every run from an empty fleet that follows a set of
      rules keeps every write on target if and only if the set is complete and writes
      time out within the barrier. */
  lemma SafeIffBarrierCoversTimeout(cfg: Config, owner: Pid -> nat, rules: set<Rule>)
    requires 0 < cfg.timeout
    ensures (forall g | Leads(cfg, owner, rules, START, g) :: NoStrayWrite(g))
            <==> rules == ALL_RULES && cfg.timeout <= cfg.barrier
  {
    hide NoStrayWrite, Inv, Run, LawfulRun, Possible;
    if rules != ALL_RULES {
      var rule := MissingRule(rules);
      var g := EachRuleMatters(cfg, owner, rule);
      LeadsWithFewer(cfg, owner, ALL_RULES - {rule}, rules, START, g);
    } else if cfg.barrier < cfg.timeout {
      var g := ShortBarrierStrands(cfg, owner);
    } else {
      StartIsInv(cfg, owner);
      forall g | Leads(cfg, owner, rules, START, g)
        ensures NoStrayWrite(g)
      {
        var es :| LawfulRun(cfg, owner, rules, START, es) && Possible(cfg, START, es) && Run(cfg, START, es) == g;
        RunIsSafe(cfg, owner, START, es);
      }
    }
  }

  lemma MissingRule(rules: set<Rule>) returns (rule: Rule)
    requires rules != ALL_RULES
    ensures rules <= ALL_RULES - {rule}
  {
    rule := if OneController !in rules then OneController else if OneAtATime !in rules then OneAtATime
            else if RegisteredOnce !in rules then RegisteredOnce else StateReadable;
    forall r | r in rules
      ensures r in ALL_RULES
    {
      assert r == OneController || r == OneAtATime || r == RegisteredOnce || r == StateReadable;
    }
    assert rules <= ALL_RULES;
  }
}
