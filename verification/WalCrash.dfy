/**
  Crashes inside an operation that writes twice. Persisting the checkpoint empties the
  file first: what a crash there leaves replays every record acknowledged since the last
  compaction. A drained compaction cuts the log first: a crash there leaves a checkpoint
  ahead of the log, and later appends are lost.
*/
module WalCrash {
  import opened Bytes
  import opened WalCodec
  import opened WalLog
  import opened WalRuns

  /** The last `n` acknowledged records. */
  function LastAcked(y: Sys, n: nat): (done: seq<Rec>)
    requires WfHistory(y) && n <= |y.acked|
    ensures AllStorable(done) && y.acked == y.acked[..|y.acked| - n] + done
  {
    assert forall rec | rec in y.acked :: rec in y.accepted;
    y.acked[|y.acked| - n..]
  }

  /** In front of the read cursor lie the frames of the last `n` acknowledged records. */
  predicate Behind(y: Sys, n: nat) {
    Placed(y) && WfHistory(y) && n <= |y.acked| && y.s.log[..y.s.r] == Frames(LastAcked(y, n))
  }

  /** How many there are after a step: one more with each commit, none after a compaction. */
  function StillBehind(cfg: Config, y: Sys, e: Event, n: nat): nat
    requires Placed(y) && WfHistory(y) && Enabled(y, e)
  {
    if Step(cfg, y, e).s.r == 0 then 0 else if e.Commit? then n + 1 else n
  }

  lemma StepBehind(cfg: Config, y: Sys, e: Event, n: nat)
    requires Inv(y) && Enabled(y, e) && Safe(cfg, y, e) && Behind(y, n)
    ensures Behind(Step(cfg, y, e), StillBehind(cfg, y, e, n))
  {
    hide OnDisk, Frames, FrameOf, Storable, Appended, Compacted, ReadCkpt, Inv, ReadFrame, Safe;
    InvOnDisk(y);
    StepKeeps(cfg, y, e);
    var z := Step(cfg, y, e);
    InvOnDisk(z);
    if z.s.r == 0 {
      NoneBehind(z);
    } else {
      match e
      case Append(rec) => AppendBehind(cfg, y, rec, n);
      case Commit(elapsed) => CommitBehind(cfg, y, elapsed, n);
      case Park => ParkBehind(cfg, y, n);
      case Restart(cut) => RestartBehind(cfg, y, cut, n);
      case _ =>
    }
  }

  lemma NoneBehind(y: Sys)
    requires Placed(y) && WfHistory(y) && y.s.r == 0
    ensures Behind(y, 0)
  {
    NoFrames();
  }

  lemma AppendBehind(cfg: Config, y: Sys, rec: Rec, n: nat)
    requires Behind(y, n) && WfRec(rec)
    requires Placed(Step(cfg, y, Append(rec))) && WfHistory(Step(cfg, y, Append(rec)))
    ensures Behind(Step(cfg, y, Append(rec)), n)
  {
    hide Frames, EncodeBody, WfRec, Frame, Storable;
    if Appended(cfg, y.s, rec).Some? {
      assert Appended(cfg, y.s, rec).value.log[..y.s.w] == y.s.log[..y.s.w];
      Shorter(Appended(cfg, y.s, rec).value.log, y.s.log, y.s.w, y.s.r);
    }
  }

  lemma Shorter(a: bytes, b: bytes, w: nat, r: nat)
    requires r <= w <= |a| && w <= |b| && a[..w] == b[..w]
    ensures a[..r] == b[..r]
  {
    assert a[..r] == a[..w][..r] && b[..r] == b[..w][..r];
  }

  /** A commit that leaves the cursor past the start has not compacted. */
  lemma CommitStays(cfg: Config, y: Sys, elapsed: bool)
    requires Inv(y) && Enabled(y, Commit(elapsed)) && Safe(cfg, y, Commit(elapsed))
    requires Step(cfg, y, Commit(elapsed)).s.r != 0
    ensures Step(cfg, y, Commit(elapsed)).s == Committed(y.s, y.pc.next)
    ensures Pending(y) != [] && y.pc.rec == Pending(y)[0] && y.pc.next == y.s.r + |FrameOf(y.pc.rec)|
  {
    hide OnDisk, Frames, FrameOf, Storable, Compacted, ReadCkpt, Inv, ReadFrame, PersistCkpt, KeepsTail;
    InvOnDisk(y);
    InvAtHead(y);
    CommitKeeps(y.s, Pending(y));
    if elapsed {
      TidyKeeps(cfg, Committed(y.s, y.pc.next), Pending(y)[1..]);
    }
  }

  lemma CommitBehind(cfg: Config, y: Sys, elapsed: bool, n: nat)
    requires Inv(y) && Behind(y, n) && Enabled(y, Commit(elapsed)) && Safe(cfg, y, Commit(elapsed))
    requires var z := Step(cfg, y, Commit(elapsed)); z.s.r != 0 && Placed(z) && WfHistory(z)
    ensures Behind(Step(cfg, y, Commit(elapsed)), n + 1)
  {
    hide OnDisk, Frames, FrameOf, Storable, Tidied, ReadCkpt, Inv, ReadFrame, PersistCkpt, Safe;
    InvOnDisk(y);
    CommitStays(cfg, y, elapsed);
    var rec, done := y.pc.rec, LastAcked(y, n);
    HeadOnDisk(y.s, Pending(y));
    assert rec in Pending(y);
    OneFrame(rec);
    FramesAppend(done, [rec]);
    var z := Step(cfg, y, Commit(elapsed));
    assert LastAcked(z, n + 1) == done + [rec];
    assert y.s.log[..y.pc.next] == y.s.log[..y.s.r] + y.s.log[y.s.r..y.pc.next];
  }

  lemma ParkBehind(cfg: Config, y: Sys, n: nat)
    requires Inv(y) && Behind(y, n) && Enabled(y, Park) && Safe(cfg, y, Park) && Step(cfg, y, Park).s.r != 0
    ensures Behind(Step(cfg, y, Park), n)
  {
    hide OnDisk, Frames, Storable, Compacted, KeepsTail, Inv;
    InvOnDisk(y);
    TidyKeeps(cfg, y.s, Pending(y));
  }

  lemma HeadOnDisk(s: State, pending: seq<Rec>)
    requires AllStorable(pending) && OnDisk(s, pending) && pending != []
    ensures s.r + |FrameOf(pending[0])| <= s.w && s.log[s.r..s.r + |FrameOf(pending[0])|] == FrameOf(pending[0])
  {
    hide FrameOf, Storable, ReadCkpt, ReadFrame;
    var f, all := FrameOf(pending[0]), Frames(pending);
    assert s.log[s.r..s.r + |f|] == s.log[s.r..s.r + |all|][..|f|] == all[..|f|] == f;
  }

  lemma RestartBehind(cfg: Config, y: Sys, cut: nat, n: nat)
    requires Inv(y) && Behind(y, n) && Enabled(y, Restart(cut)) && Safe(cfg, y, Restart(cut))
    requires var z := Step(cfg, y, Restart(cut)); Placed(z) && WfHistory(z)
    ensures Behind(Step(cfg, y, Restart(cut)), n)
  {
    hide Frames, Storable, ReadCkpt, ReadFrame, Whole;
    assert y.s.log[..cut][..y.s.r] == y.s.log[..y.s.r];
  }

  /** On every safe run from an empty directory. */
  lemma {:induction false} RunBehind(cfg: Config, y: Sys, n: nat, es: seq<Event>) returns (m: nat)
    requires Inv(y) && Behind(y, n) && SafeRun(cfg, y, es)
    ensures Behind(Run(cfg, y, es), m)
    decreases |es|
  {
    hide Inv, Behind, Step, Safe, Enabled, StillBehind;
    m := n;
    if es != [] {
      InvOnDisk(y);
      StepBehind(cfg, y, es[0], n);
      StepKeeps(cfg, y, es[0]);
      m := RunBehind(cfg, Step(cfg, y, es[0]), StillBehind(cfg, y, es[0], n), es[1..]);
    }
  }

  // ---------- while the checkpoint is written ----------

  /** The queue after a crash that left fewer than eight bytes of checkpoint and `cut`
      bytes of log: the records behind the cursor are pending again. */
  function Forgotten(y: Sys, n: nat, cut: nat, ckpt: bytes): Sys
    requires Behind(y, n) && cut <= |y.s.log|
  {
    var all := LastAcked(y, n) + Pending(y);
    var kept := y.acked[..|y.acked| - n];
    Sys(Opened(y.s.log[..cut], ckpt), Ready, kept + all[..Whole(all, cut)], kept)
  }

  /** Nothing accepted is lost, but everything acknowledged since the last compaction is
      delivered again, in order. */
  lemma TornCheckpoint(y: Sys, n: nat, cut: nat, ckpt: bytes)
    requires Inv(y) && Behind(y, n) && |ckpt| < 8 && cut <= |y.s.log|
    requires cut > y.s.w ==> ReadFrame(y.s.log[..cut], y.s.w) == None
    ensures var z := Forgotten(y, n, cut, ckpt);
            && Inv(z)
            && (cut >= y.s.w ==> z.accepted == y.accepted && Pending(z) == LastAcked(y, n) + Pending(y))
  {
    hide Frames, FrameOf, Storable, ReadFrame, Whole, OnDisk, Inv;
    InvOnDisk(y);
    var p, done := Pending(y), LastAcked(y, n);
    var all := done + p;
    var s := State(y.s.log, ckpt, y.s.w, 0);
    FramesAppend(done, p);
    AllOnDisk(y.s, s, done, p);
    RestartKeeps(s, all, cut);
    var k := Whole(all, cut);
    var z := Forgotten(y, n, cut, ckpt);
    assert Pending(z) == all[..k];
    OnDiskOrdered(z.s, all[..k]);
    IsInv(z);
    assert y.accepted == y.acked + p;
    if cut >= y.s.w {
      assert all[..k] == all;
    }
  }

  lemma AllOnDisk(s: State, t: State, done: seq<Rec>, pending: seq<Rec>)
    requires AllStorable(done) && AllStorable(pending) && AllStorable(done + pending)
    requires OnDisk(s, pending) && s.log[..s.r] == Frames(done) && t == State(s.log, t.ckpt, s.w, 0) && |t.ckpt| < 8
    requires Frames(done + pending) == Frames(done) + Frames(pending)
    ensures OnDisk(t, done + pending)
  {
    hide Frames, FrameOf, Storable, ReadFrame;
    var end := s.r + |Frames(pending)|;
    assert s.log[0..end] == s.log[..s.r] + s.log[s.r..end];
  }

  lemma IsInv(y: Sys)
    requires Placed(y) && WfHistory(y) && OnDisk(y.s, Pending(y)) && y.pc.Ready?
    ensures Inv(y)
  {
  }

  // ---------- while a drained log is compacted ----------

  /** Appends in turn, if the log takes them all. */
  function AppendAll(cfg: Config, s: State, recs: seq<Rec>): Option<State>
    requires s.w <= |s.log|
    decreases |recs|
  {
    if recs == [] then Some(s)
    else
      var t :- Appended(cfg, s, recs[0]);
      AppendAll(cfg, t, recs[1..])
  }

  lemma {:induction false} AppendAllWrites(cfg: Config, s: State, recs: seq<Rec>)
    requires AllStorable(recs) && s.w == |s.log| && AppendAll(cfg, s, recs).Some?
    ensures var t := AppendAll(cfg, s, recs).value;
            t.log == s.log + Frames(recs) && t.ckpt == s.ckpt
    decreases |recs|
  {
    hide Storable, FrameOf, Appended;
    if recs == [] {
      assert s.log + [] == s.log;
    } else {
      AppendedAtEnd(cfg, s, recs[0]);
      var t := Appended(cfg, s, recs[0]).value;
      AppendAllWrites(cfg, t, recs[1..]);
      assert s.log + FrameOf(recs[0]) + Frames(recs[1..]) == s.log + (FrameOf(recs[0]) + Frames(recs[1..]));
    }
  }

  /** A crash after the log was cut and before the checkpoint was reset. The process
      comes back with nothing pending, and whatever it then accepts does not survive the
      next restart. */
  lemma CutThenCrash(cfg: Config, y: Sys, recs: seq<Rec>)
    requires Inv(y) && y.s.r == y.s.w && y.s.r != 0 && AllStorable(recs)
    requires AppendAll(cfg, Opened([], y.s.ckpt), recs).Some?
    ensures Tidied(cfg, y.s).log == []
    ensures var t := AppendAll(cfg, Opened([], y.s.ckpt), recs).value;
            var u := Opened(t.log, t.ckpt);
            Replay(u.log, u.r) == recs <==> recs == []
  {
    hide Frames, Storable, Appended, Replay, ReadCkpt, OnDisk, Inv;
    InvOnDisk(y);
    OnDiskOrdered(y.s, Pending(y));
    assert y.s.log[..0] == [];
    AppendAllWrites(cfg, Opened([], y.s.ckpt), recs);
    assert [] + Frames(recs) == Frames(recs);
    StaleCheckpoint(y.s.ckpt, recs);
  }

  /** There is such a moment: append, deliver, commit, and find nothing more to fetch. */
  lemma DrainedRun(cfg: Config, rec: Rec) returns (es: seq<Event>)
    requires Storable(rec) && |FrameOf(rec)| <= cfg.maxBytes
    ensures SafeRun(cfg, FRESH, es)
    ensures var y := Run(cfg, FRESH, es); Inv(y) && y.pc.Idle? && y.s.r == y.s.w && y.s.r != 0
  {
    hide Inv, OnDisk, Safe, Enabled, Frames, FrameOf, Storable;
    FreshIsInv();
    InvOnDisk(FRESH);
    AppendFresh(cfg, rec);
    StepKeeps(cfg, FRESH, Append(rec));
    var y := Step(cfg, FRESH, Append(rec));
    InvOnDisk(y);
    var z := DeliverOne(cfg, y);
    Committed1(cfg, y, z);
    InvOnDisk(z);
    CaughtUp(cfg, z);
    var u := Step(cfg, z, Fetch);
    hide Step;
    assert SafeRun(cfg, u, []) && Run(cfg, u, []) == u;
    Unroll(cfg, z, Fetch, []);
    assert [Fetch] + [] == [Fetch];
    DeliverOneRun(cfg, y, z, [Fetch]);
    es := [Append(rec)] + ([Fetch, Ack, Commit(false)] + [Fetch]);
    Unroll(cfg, FRESH, Append(rec), [Fetch, Ack, Commit(false)] + [Fetch]);
  }

  lemma AppendFresh(cfg: Config, rec: Rec)
    requires Storable(rec) && |FrameOf(rec)| <= cfg.maxBytes
    ensures Placed(FRESH) && WfHistory(FRESH) && Enabled(FRESH, Append(rec)) && Safe(cfg, FRESH, Append(rec))
    ensures var y := Step(cfg, FRESH, Append(rec)); y.pc.Ready? && y.accepted == [rec] && y.acked == []
  {
    hide Frame, EncodeBody, WfRec;
    NoFrames();
    assert [] + [rec] == [rec];
  }

  lemma Committed1(cfg: Config, y: Sys, z: Sys)
    requires Inv(y) && y.pc.Ready? && y.acked == [] && |y.accepted| == 1 && Delivers(cfg, y, z)
    ensures z.s.r != 0
  {
    hide OnDisk, Frames, FrameOf, Storable, ReadFrame, Inv, Tidied, PersistCkpt;
    InvOnDisk(y);
    NextReads(y.s, Pending(y));
    assert |FrameOf(Pending(y)[0])| >= HEADER;
  }
}
