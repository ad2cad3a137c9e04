/**
  A restart while the bytes of a discarded record still lie past the end of the log: a
  run, from an empty directory, after which a record is delivered that nobody appended.
*/
module WalStale {
  import opened Bytes
  import opened WalCodec
  import opened WalLog
  import opened WalRuns
  import Crc

  /** A record whose payload ends in the frame of `x`, which lies as far from the start
      of its own frame as the frame of `rec` is long. */
  function Buried(rec: Rec, x: Rec): Rec
    requires Storable(rec) && Storable(x) && |FrameOf(rec)| >= 14
  {
    Rec([], [], seq(|FrameOf(rec)| - 14, i => 0) + FrameOf(x) + [0])
  }

  predicate Fits(cfg: Config, rec: Rec, x: Rec)
    requires Storable(rec) && Storable(x)
  {
    |FrameOf(rec)| + |FrameOf(x)| + 1 <= cfg.maxBytes && |FrameOf(rec)| + |FrameOf(x)| + 1 < TWO_32
  }

  lemma AtLeast14(rec: Rec)
    requires Storable(rec)
    ensures |FrameOf(rec)| >= 14
  {
    hide EncodeBody;
    BodyNotEmpty(rec);
  }

  lemma BuriedFrame(cfg: Config, rec: Rec, x: Rec)
    requires Storable(rec) && Storable(x) && |FrameOf(rec)| >= 14 && Fits(cfg, rec, x)
    ensures var t := Buried(rec, x);
            && Storable(t) && |FrameOf(t)| == |FrameOf(rec)| + |FrameOf(x)| + 1
            && FrameOf(t)[..|FrameOf(t)| - 1][|FrameOf(rec)|..] == FrameOf(x)
  {
    hide Crc.Crc32, Crc.LittleEndian, Le;
    var f, g := |FrameOf(rec)|, FrameOf(x);
    var t := Buried(rec, x);
    var body := Le(0, 2) + ([] + (Le(0, 4) + ([] + t.payload)));
    assert EncodeBody(t) == Some(body) && |body| == f + |g| + 1 - HEADER;
    var sum := Crc.LittleEndian(Crc.Crc32(body));
    BuriedBytes(Le(|body|, 4), sum, Le(0, 2), Le(0, 4), seq(f - 14, i => 0), g);
  }

  lemma BuriedBytes(size: bytes, sum: bytes, a: bytes, b: bytes, pad: bytes, g: bytes)
    requires |size| == 4 && |sum| == 4 && |a| == 2 && |b| == 4
    ensures var t := size + (sum + (a + ([] + (b + ([] + (pad + g + [0]))))));
            |t| == 14 + |pad| + |g| + 1 && t[..|t| - 1][14 + |pad|..] == g
  {
    var t := size + (sum + (a + ([] + (b + ([] + (pad + g + [0]))))));
    assert t == (size + sum + a + b + pad) + g + [0];
  }

  function StaleRun(rec: Rec, x: Rec): seq<Event>
    requires Storable(rec) && Storable(x) && |FrameOf(rec)| >= 14 && Storable(Buried(rec, x))
  {
    var t := Buried(rec, x);
    [Append(t), Restart(|FrameOf(t)| - 1), Fetch, Park, Append(rec)]
  }

  /** Where that run ends: the frame of `x` lies in the file past the end of the log. */
  function Stale(rec: Rec, x: Rec): Sys
    requires Storable(rec) && Storable(x)
  {
    Sys(State(FrameOf(rec) + FrameOf(x), [], |FrameOf(rec)|, 0), Ready, [rec], [])
  }

  /** A clean restart delivers a record that was never appended. A record is cut by a
      crash and discarded, the next one is written over its start, and the process is
      restarted: what the cut record's payload held past that point is replayed. Any
      record `x` can lie there. */
  lemma StaleRestart(cfg: Config, rec: Rec, x: Rec)
    requires Storable(rec) && Storable(x) && Fits(cfg, rec, x)
    ensures |FrameOf(rec)| >= 14 && Storable(Buried(rec, x))
    ensures var y := Stale(rec, x);
            && SafeRun(cfg, FRESH, StaleRun(rec, x)) && Run(cfg, FRESH, StaleRun(rec, x)) == y
            && Inv(y) && Enabled(y, Restart(|y.s.log|)) && !Safe(cfg, y, Restart(|y.s.log|))
            && var z := Step(cfg, y, Restart(|y.s.log|));
               z.accepted == [rec] && Replay(z.s.log, z.s.r) == [rec, x]
  {
    hide SafeRun, Run, Frames, FrameOf, Storable, Replay, ReadFrame, Safe, Step, Whole, Inv, Buried;
    AtLeast14(rec);
    BuriedFrame(cfg, rec, x);
    StaleRunIs(cfg, rec, x);
    FreshIsInv();
    RunDelivers(cfg, FRESH, StaleRun(rec, x));
    StaleRestarts(cfg, rec, x);
  }

  lemma StaleRestarts(cfg: Config, rec: Rec, x: Rec)
    requires Storable(rec) && Storable(x) && Inv(Stale(rec, x))
    ensures var y := Stale(rec, x);
            && Enabled(y, Restart(|y.s.log|)) && !Safe(cfg, y, Restart(|y.s.log|))
            && var z := Step(cfg, y, Restart(|y.s.log|));
               z.accepted == [rec] && Replay(z.s.log, z.s.r) == [rec, x]
  {
    hide Frames, FrameOf, Storable, Replay, ReadFrame, Inv, Whole;
    var y := Stale(rec, x);
    var f, g := FrameOf(rec), FrameOf(x);
    InvOnDisk(y);
    assert y.s.log[..|y.s.log|] == y.s.log == f + g + [];
    ReadFrameOver(f, x, []);
    OneFrame(rec);
    OneFrame(x);
    FramesAppend([rec], [x]);
    assert y.s.log == [] + Frames([rec] + [x]) + [];
    ReplayOver([], [rec] + [x], []);
    NothingLeft(y.s.log, |y.s.log|);
    WholeAll([rec], |y.s.log|);
    assert Pending(y) == [rec];
  }

  lemma StaleRunIs(cfg: Config, rec: Rec, x: Rec)
    requires Storable(rec) && Storable(x) && |FrameOf(rec)| >= 14 && Fits(cfg, rec, x)
    requires Storable(Buried(rec, x))
    ensures SafeRun(cfg, FRESH, StaleRun(rec, x)) && Run(cfg, FRESH, StaleRun(rec, x)) == Stale(rec, x)
  {
    hide SafeRun, Run, Frames, FrameOf, Storable, ReadFrame, Safe, Step, Enabled, Whole, Buried, Placed, WfHistory;
    var t := Buried(rec, x);
    var n := |FrameOf(t)| - 1;
    var torn := FrameOf(t)[..n];
    BuriedFrame(cfg, rec, x);
    var y1 := Sys(State(FrameOf(t), [], n + 1, 0), Ready, [t], []);
    var y2 := Sys(State(torn, [], n, 0), Ready, [], []);
    var y3 := Sys(State(torn, [], 0, 0), Idle, [], []);
    var y4 := y3.(pc := Ready);
    FirstAppend(cfg, t);
    CutOne(cfg, t, n);
    DiscardTorn(cfg, t, n);
    Unroll0(cfg, Stale(rec, x));
    ParkThenWrite(cfg, torn, rec, x);
    Unroll(cfg, y4, Append(rec), []);
    assert [Append(rec)] + [] == [Append(rec)];
    Unroll(cfg, y3, Park, [Append(rec)]);
    Unroll(cfg, y2, Fetch, [Park] + [Append(rec)]);
    Unroll(cfg, y1, Restart(n), [Fetch] + ([Park] + [Append(rec)]));
    Unroll(cfg, FRESH, Append(t), [Restart(n)] + ([Fetch] + ([Park] + [Append(rec)])));
    assert [Append(t)] + ([Restart(n)] + ([Fetch] + ([Park] + [Append(rec)]))) == StaleRun(rec, x);
  }

  lemma Unroll0(cfg: Config, y: Sys)
    ensures SafeRun(cfg, y, []) && Run(cfg, y, []) == y
  {
  }

  predicate Steps(cfg: Config, y: Sys, e: Event, z: Sys) {
    Placed(y) && WfHistory(y) && Enabled(y, e) && Safe(cfg, y, e) && Step(cfg, y, e) == z
  }

  lemma FirstAppend(cfg: Config, t: Rec)
    requires Storable(t) && |FrameOf(t)| <= cfg.maxBytes
    ensures Steps(cfg, FRESH, Append(t), Sys(State(FrameOf(t), [], |FrameOf(t)|, 0), Ready, [t], []))
  {
    hide Frame, EncodeBody, WfRec;
    assert [] + FrameOf(t) + [] == FrameOf(t);
    assert [] + [t] == [t];
  }

  lemma CutOne(cfg: Config, t: Rec, n: nat)
    requires Storable(t) && n < |FrameOf(t)| < TWO_64
    ensures Steps(cfg, Sys(State(FrameOf(t), [], |FrameOf(t)|, 0), Ready, [t], []), Restart(n),
                  Sys(State(FrameOf(t)[..n], [], n, 0), Ready, [], []))
  {
    hide FrameOf, Storable;
  }

  lemma DiscardTorn(cfg: Config, t: Rec, n: nat)
    requires Storable(t) && 0 < n < |FrameOf(t)| < TWO_64
    ensures Steps(cfg, Sys(State(FrameOf(t)[..n], [], n, 0), Ready, [], []), Fetch,
                  Sys(State(FrameOf(t)[..n], [], 0, 0), Idle, [], []))
  {
    hide FrameOf, Storable, ReadFrame;
    TornFrame([], t, n);
    assert [] + FrameOf(t)[..n] == FrameOf(t)[..n];
  }

  lemma ParkThenWrite(cfg: Config, torn: bytes, rec: Rec, x: Rec)
    requires Storable(rec) && Storable(x) && |FrameOf(rec)| <= cfg.maxBytes
    requires |FrameOf(rec)| <= |torn| < TWO_64 && torn[|FrameOf(rec)|..] == FrameOf(x)
    ensures var y := Sys(State(torn, [], 0, 0), Idle, [], []);
            Steps(cfg, y, Park, y.(pc := Ready)) && Steps(cfg, y.(pc := Ready), Append(rec), Stale(rec, x))
  {
    hide Frame, EncodeBody, WfRec;
    assert torn[..0] + FrameOf(rec) + torn[|FrameOf(rec)|..] == FrameOf(rec) + FrameOf(x);
    assert [] + [rec] == [rec];
  }
}
