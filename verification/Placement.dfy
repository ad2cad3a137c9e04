/**
  The placement table: each partition's migration state, stamped with an epoch that
  every change advances, and the write gate that compares epochs.
*/
module Placement {
  import opened Bytes

  type Pid = bytes

  datatype Target = Target(cluster: bytes, index: bytes)

  datatype Phase = Draining | Cutover

  datatype PartitionState =
    | Active(at: Target)
    | Migrating(from: Target, to: Target, phase: Phase)
  {
    /** The one placement reads resolve to. */
    function ReadPlacement(): Target {
      if Active? then at else from
    }

    /** Where a write may commit now; `None` only in cutover. */
    function WritePlacement(): Option<Target> {
      if Active? then Some(at) else if phase.Draining? then Some(from) else None
    }

    predicate InCutover() {
      Migrating? && phase.Cutover?
    }
  }

  datatype MigrationError = UnknownPartition | AlreadyMigrating | NotMigrating | NotDraining | NotCutover | Backend

  datatype Entry = Entry(state: PartitionState, epoch: nat)

  datatype Table = Table(entries: map<Pid, Entry>, generation: nat)

  type Moved = Result<Table, MigrationError>

  // ---------- transitions ----------

  function Begun(s: PartitionState, to: Target): Result<PartitionState, MigrationError> {
    match s
    case Active(from) => Ok(Migrating(from, to, Draining))
    case Migrating(_, _, _) => Err(AlreadyMigrating)
  }

  function CutOver(s: PartitionState): Result<PartitionState, MigrationError> {
    match s
    case Migrating(from, to, Draining) => Ok(Migrating(from, to, Cutover))
    case Migrating(_, _, _) => Err(NotDraining)
    case Active(_) => Err(NotMigrating)
  }

  function Completed(s: PartitionState): Result<PartitionState, MigrationError> {
    match s
    case Migrating(_, to, Cutover) => Ok(Active(to))
    case Migrating(_, _, _) => Err(NotCutover)
    case Active(_) => Err(NotMigrating)
  }

  function Aborted(s: PartitionState): Result<PartitionState, MigrationError> {
    match s
    case Migrating(from, _, _) => Ok(Active(from))
    case Active(_) => Err(NotMigrating)
  }

  /** The table with `p` in state `s`, stamped with a fresh epoch. */
  function Stamped(t: Table, p: Pid, s: PartitionState): Table {
    Table(t.entries[p := Entry(s, t.generation + 1)], t.generation + 1)
  }

  /** A transition is all or nothing. */
  function Transition(t: Table, p: Pid, f: PartitionState -> Result<PartitionState, MigrationError>): Moved {
    if p !in t.entries then Err(UnknownPartition)
    else
      var s :- f(t.entries[p].state);
      Ok(Stamped(t, p, s))
  }

  function BeginMigration(t: Table, p: Pid, to: Target): Moved {
    Transition(t, p, s => Begun(s, to))
  }

  function EnterCutover(t: Table, p: Pid): Moved {
    Transition(t, p, CutOver)
  }

  function CompleteMigration(t: Table, p: Pid): Moved {
    Transition(t, p, Completed)
  }

  function AbortMigration(t: Table, p: Pid): Moved {
    Transition(t, p, Aborted)
  }

  predicate InCutover(t: Table, p: Pid) {
    p in t.entries && t.entries[p].state.InCutover()
  }

  /** `admit_write`: writes are open and the epoch is the one the write resolved at. */
  predicate Admits(t: Table, p: Pid, epoch: nat) {
    p in t.entries && t.entries[p].state.WritePlacement().Some? && t.entries[p].epoch == epoch
  }

  /** A transition of one partition is invisible to the others. */
  lemma OthersUnmoved(t: Table, p: Pid, q: Pid, to: Target)
    requires p != q
    ensures BeginMigration(t, p, to).Ok? ==> InCutover(BeginMigration(t, p, to).value, q) == InCutover(t, q)
    ensures EnterCutover(t, p).Ok? ==> InCutover(EnterCutover(t, p).value, q) == InCutover(t, q)
    ensures CompleteMigration(t, p).Ok? ==> InCutover(CompleteMigration(t, p).value, q) == InCutover(t, q)
    ensures AbortMigration(t, p).Ok? ==> InCutover(AbortMigration(t, p).value, q) == InCutover(t, q)
  {
  }

  /** Which transitions open and close the cutover window. */
  lemma MovesCutover(t: Table, p: Pid, to: Target)
    ensures BeginMigration(t, p, to).Ok? ==> !InCutover(t, p) && !InCutover(BeginMigration(t, p, to).value, p)
    ensures EnterCutover(t, p).Ok? ==> !InCutover(t, p) && InCutover(EnterCutover(t, p).value, p)
    ensures CompleteMigration(t, p).Ok? ==> InCutover(t, p) && !InCutover(CompleteMigration(t, p).value, p)
    ensures AbortMigration(t, p).Ok? ==> !InCutover(AbortMigration(t, p).value, p)
  {
  }

  /** Every epoch was handed out by the generation counter. */
  predicate Valid(t: Table) {
    forall p | p in t.entries :: 0 < t.entries[p].epoch <= t.generation
  }

  /** The table the fleet shares. */
  class PlacementTable {
    var entries: map<Pid, Entry>
    var generation: nat

    function Model(): Table
      reads this
    {
      Table(entries, generation)
    }

    constructor ()
      ensures Model() == Table(map[], 0) && Valid(Model())
    {
      entries := map[];
      generation := 0;
    }

    method Register(p: Pid, at: Target) returns (epoch: nat)
      requires Valid(Model())
      modifies this
      ensures Valid(Model()) && Model() == Stamped(old(Model()), p, Active(at)) && epoch == generation
    {
      generation := generation + 1;
      epoch := generation;
      entries := entries[p := Entry(Active(at), epoch)];
    }

    /** Applies one transition under the write lock. */
    method Apply(p: Pid, f: PartitionState -> Result<PartitionState, MigrationError>)
      returns (r: Result<nat, MigrationError>)
      requires Valid(Model())
      modifies this
      ensures Valid(Model())
      ensures match Transition(old(Model()), p, f)
              case Ok(t) => r == Ok(generation) && Model() == t
              case Err(e) => r == Err(e) && Model() == old(Model())
    {
      if p !in entries {
        return Err(UnknownPartition);
      }
      var next := f(entries[p].state);
      if next.Err? {
        return Err(next.error);
      }
      generation := generation + 1;
      entries := entries[p := Entry(next.value, generation)];
      r := Ok(generation);
    }
  }
}
