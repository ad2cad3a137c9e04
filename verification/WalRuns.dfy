/**
  Every run of the durable buffer: appends from the request path, the drainer's
  fetches, the broker's answers, commits, compactions and restarts, interleaved.
  The acknowledged records are always a prefix of the accepted ones, in order, and
  the rest is on disk waiting to be replayed.
*/
module WalRuns {
  import opened Bytes
  import opened WalCodec
  import opened WalLog

  /** Where the drainer is between two lock acquisitions. */
  datatype Pc = Ready | Idle | Sending(rec: Rec, next: nat) | Sent(rec: Rec, next: nat)

  /** `accepted` are the appends that succeeded and were not cut off by a crash,
      `acked` the records the broker acknowledged and the checkpoint passed. */
  datatype Sys = Sys(s: State, pc: Pc, accepted: seq<Rec>, acked: seq<Rec>)

  datatype Event =
    | Append(rec: Rec)
    | Fetch
    | Nack
    | Ack
    | Commit(elapsed: bool)
    | Park
    | Restart(cut: nat)

  predicate InFlight(pc: Pc) {
    pc.Sending? || pc.Sent?
  }

  predicate Placed(y: Sys) {
    Ordered(y.s) && (InFlight(y.pc) ==> y.s.r <= y.pc.next <= y.s.w)
  }

  predicate Enabled(y: Sys, e: Event) {
    match e
    case Append(rec) => WfRec(rec)
    case Fetch => y.pc.Ready?
    case Nack => y.pc.Sending?
    case Ack => y.pc.Sending?
    case Commit(_) => y.pc.Sent?
    case Park => y.pc.Idle?
    case Restart(cut) => cut <= |y.s.log|
  }

  predicate Prefix(a: seq<Rec>, b: seq<Rec>) {
    |a| <= |b| && b[..|a|] == a
  }

  predicate WfHistory(y: Sys) {
    AllStorable(y.accepted) && Prefix(y.acked, y.accepted)
  }

  /** The accepted records still to be acknowledged. */
  function Pending(y: Sys): (p: seq<Rec>)
    requires WfHistory(y)
    ensures AllStorable(p) && y.accepted == y.acked + p
  {
    y.accepted[|y.acked|..]
  }

  function Step(cfg: Config, y: Sys, e: Event): Sys
    requires Placed(y) && WfHistory(y) && Enabled(y, e)
  {
    match e
    case Append(rec) =>
      (match Appended(cfg, y.s, rec)
       case None => y
       case Some(t) => y.(s := t, accepted := y.accepted + [rec]))
    case Fetch =>
      var (t, next) := Next(y.s);
      y.(s := t, pc := match next case None => Idle case Some(read) => Sending(read.rec, read.next))
    case Nack => y.(pc := Ready)
    case Ack => y.(pc := Sent(y.pc.rec, y.pc.next))
    case Commit(elapsed) =>
      var t := Committed(y.s, y.pc.next);
      Sys(if elapsed then Tidied(cfg, t) else t, Ready, y.accepted, y.acked + [y.pc.rec])
    case Park => y.(s := Tidied(cfg, y.s), pc := Ready)
    case Restart(cut) =>
      var p := Pending(y);
      Sys(Opened(y.s.log[..cut], y.s.ckpt), Ready,
          y.acked + p[..Whole(p, if cut < y.s.r then 0 else cut - y.s.r)], y.acked)
  }

  // ---------- which steps keep everything ----------

  /** The undelivered bytes end in something that is not a whole frame: a crash cut it. */
  predicate TornEnd(y: Sys)
    requires WfHistory(y)
  {
    y.s.r + |Frames(Pending(y))| < y.s.w
  }

  /** Compaction is harmless: it is skipped, or refused, or nothing is live. */
  predicate KeepsTail(cfg: Config, s: State) {
    s.r == 0 || s.r == s.w || s.r < cfg.compactThreshold || s.w - s.r >= TWO_32
  }

  /** The step keeps the queue on disk: `SafeIff` says that these are exactly the steps
      that do. The others lose records in the code as written: `CompactionKeepsIff`,
      `BehindTheTear`, `StaleCheckpoint` and `ReopenKeepsIff` say when. */
  predicate Safe(cfg: Config, y: Sys, e: Event)
    requires Placed(y) && WfHistory(y) && Enabled(y, e)
  {
    match e
    case Append(rec) =>
      TornEnd(y) && Appended(cfg, y.s, rec).Some? ==>
        Repeats(y.s.log[y.s.r + |Frames(Pending(y))|..], FrameOf(rec))
    case Commit(elapsed) => elapsed && |Pending(y)| > 1 ==> KeepsTail(cfg, Committed(y.s, y.pc.next))
    case Park => Pending(y) != [] ==> KeepsTail(cfg, y.s)
    case Restart(cut) =>
      ReadCkpt(y.s.ckpt) <= cut && (cut > y.s.w ==> ReadFrame(y.s.log[..cut], y.s.w) == None)
    case _ => true
  }

  /** The pending records lie at the read cursor, whole and in order. What follows them
      up to the end of the log, if anything, ends the file and does not read. Past the
      end of the log the file may hold anything. */
  predicate OnDisk(s: State, pending: seq<Rec>)
    requires AllStorable(pending)
  {
    var f := Frames(pending);
    && Ordered(s) && s.r + |f| <= s.w && s.log[s.r..s.r + |f|] == f
    && (s.r + |f| < s.w ==> s.w == |s.log| && ReadFrame(s.log, s.r + |f|) == None)
    && ReadCkpt(s.ckpt) == s.r
  }

  predicate AtHead(pc: Pc, r: nat, pending: seq<Rec>)
    requires AllStorable(pending)
  {
    InFlight(pc) ==> pending != [] && pc.rec == pending[0] && pc.next == r + |FrameOf(pending[0])|
  }

  predicate Inv(y: Sys) {
    && Placed(y) && WfHistory(y)
    && OnDisk(y.s, Pending(y))
    && AtHead(y.pc, y.s.r, Pending(y))
  }

  /** An empty directory. */
  const FRESH: Sys := Sys(State([], [], 0, 0), Ready, [], [])

  lemma FreshIsInv()
    ensures Sys(Opened([], []), Ready, [], []) == FRESH && Inv(FRESH)
  {
  }

  // ---------- the files, step by step ----------

  lemma AppendKeeps(cfg: Config, s: State, pending: seq<Rec>, rec: Rec)
    requires AllStorable(pending) && OnDisk(s, pending) && s.r + |Frames(pending)| == s.w && WfRec(rec)
    requires Appended(cfg, s, rec).Some?
    ensures Storable(rec) && AllStorable(pending + [rec])
    ensures OnDisk(Appended(cfg, s, rec).value, pending + [rec])
    ensures |s.log| <= cfg.maxBytes ==> |Appended(cfg, s, rec).value.log| <= cfg.maxBytes
    ensures Frames(pending + [rec]) == Frames(pending) + FrameOf(rec)
  {
    hide Frame, EncodeBody, WfRec, ReadCkpt, Frames, ReadFrame;
    var f, g := Frames(pending), FrameOf(rec);
    FramesAppend(pending, [rec]);
    OneFrame(rec);
    var t := Appended(cfg, s, rec).value;
    WrittenAt(s.log, s.r, s.w, f, g);
  }

  lemma OneFrame(rec: Rec)
    requires Storable(rec)
    ensures Frames([rec]) == FrameOf(rec)
  {
    hide FrameOf, Storable;
    assert FrameOf(rec) + [] == FrameOf(rec);
  }

  lemma WrittenAt(log: bytes, r: nat, w: nat, f: bytes, g: bytes)
    requires r <= w <= |log| && log[r..w] == f
    ensures var t := WriteAt(log, w, g); t[r..w + |g|] == f + g && |t| == if w + |g| < |log| then |log| else w + |g|
  {
    var t := WriteAt(log, w, g);
    assert t[..w] == log[..w] && t[w..w + |g|] == g;
    assert t[r..w + |g|] == t[..w][r..] + t[w..w + |g|];
  }

  lemma NextReads(s: State, pending: seq<Rec>)
    requires AllStorable(pending) && OnDisk(s, pending) && pending != []
    ensures Next(s) == (s, Some(Read(pending[0], s.r + |FrameOf(pending[0])|)))
    ensures s.r + |FrameOf(pending[0])| <= s.w
  {
    hide ReadFrame, FrameOf, Storable, ReadCkpt;
    var f, rest := FrameOf(pending[0]), Frames(pending[1..]);
    var p, k := s.log[..s.r], s.log[s.r + |f|..];
    assert s.log[s.r..s.r + |f|] == Frames(pending)[..|f|] == f;
    assert s.log == p + f + k;
    ReadFrameOver(p, pending[0], k);
  }

  /** With nothing whole left, the torn rest is discarded. */
  lemma NextEnds(s: State)
    requires OnDisk(s, [])
    ensures Next(s) == (s.(w := s.r), None) && OnDisk(s.(w := s.r), [])
  {
    hide ReadFrame, FrameOf, Storable, ReadCkpt;
  }

  lemma CommitKeeps(s: State, pending: seq<Rec>)
    requires AllStorable(pending) && OnDisk(s, pending) && pending != []
    ensures s.r + |FrameOf(pending[0])| <= s.w
    ensures OnDisk(Committed(s, s.r + |FrameOf(pending[0])|), pending[1..])
  {
    hide FrameOf, Storable, ReadCkpt, PersistCkpt, ReadFrame;
    var f, rest := FrameOf(pending[0]), Frames(pending[1..]);
    CkptRoundTrip(s.r + |f|);
    assert s.log[s.r..s.r + |f| + |rest|] == f + rest;
    assert s.log[s.r + |f|..s.r + |f| + |rest|] == rest;
  }

  lemma TidyKeeps(cfg: Config, s: State, pending: seq<Rec>)
    requires AllStorable(pending) && OnDisk(s, pending) && (pending != [] ==> KeepsTail(cfg, s))
    ensures OnDisk(Tidied(cfg, s), pending) && |Tidied(cfg, s).log| <= |s.log|
    ensures Tidied(cfg, s) == s || (pending == [] && Tidied(cfg, s).r == 0)
  {
    hide FrameOf, Storable, ReadCkpt, PersistCkpt, Frame, ReadFrame;
    CkptRoundTrip(0);
    FramesLength(pending);
    if s.r == s.w && s.r != 0 {
      assert s.log[..0] == [];
    } else if pending == [] && !KeepsTail(cfg, s) {
      FramedTail(cfg, s);
    }
  }

  /** Compacting a live tail leaves a file that does not read. */
  lemma FramedTail(cfg: Config, s: State)
    requires Ordered(s) && !KeepsTail(cfg, s)
    ensures var t := Tidied(cfg, s);
            && t.w == |t.log| == s.w - s.r && t.r == 0 && t.ckpt == PersistCkpt(0)
            && ReadFrame(t.log, 0) == None
  {
    hide Frame, ReadFrame, PersistCkpt, Le;
    var live := s.w - s.r;
    var tail := s.log[s.r..s.w];
    CompactedLive(cfg, s);
    if live >= HEADER {
      FrameStart(tail);
      assert Frame(tail)[..live][0..4] == Frame(tail)[0..4];
      PromisesTooMuch(Frame(tail)[..live], live);
    } else {
      Unread(Frame(tail)[..live], 0);
    }
  }

  lemma {:induction false} FramesPrefix(recs: seq<Rec>, n: nat)
    requires AllStorable(recs) && n <= |recs|
    ensures Frames(recs) == Frames(recs[..n]) + Frames(recs[n..])
  {
    hide Frames, Storable;
    FramesAppend(recs[..n], recs[n..]);
    assert recs == recs[..n] + recs[n..];
  }

  lemma CutInside(log: bytes, r: nat, cut: nat, g: bytes, h: bytes, rest: bytes)
    requires r + |g| <= cut < r + |g| + |h| && r + |g| + |h| + |rest| <= |log|
    requires log[r..r + |g| + |h| + |rest|] == g + h + rest
    ensures log[..cut][r..r + |g|] == g && log[..cut][r + |g|..cut] == h[..cut - r - |g|]
  {
    var f := g + h + rest;
    assert forall i | r <= i < cut :: log[i] == f[i - r];
  }

  lemma CutAfter(log: bytes, r: nat, cut: nat, f: bytes)
    requires r + |f| <= cut <= |log| && log[r..r + |f|] == f
    ensures log[..cut][r..r + |f|] == f
  {
  }

  /** A crash that cuts the log anywhere past the checkpoint leaves the whole frames
      before the cut, and at most part of one more; a cut among the stale bytes past the
      end of the log leaves them all, when nothing reads there. */
  lemma RestartKeeps(s: State, pending: seq<Rec>, cut: nat)
    requires AllStorable(pending) && OnDisk(s, pending) && s.r <= cut <= |s.log|
    requires cut > s.w ==> ReadFrame(s.log[..cut], s.w) == None
    ensures OnDisk(Opened(s.log[..cut], s.ckpt), pending[..Whole(pending, cut - s.r)])
    ensures cut >= s.w ==> Whole(pending, cut - s.r) == |pending|
  {
    hide OnDisk, Frames, FrameOf, Storable, ReadCkpt, Whole, ReadFrame;
    var n := Whole(pending, cut - s.r);
    OnDiskOrdered(s, pending);
    WholeFits(pending, cut - s.r);
    if n < |pending| {
      FramesPrefix(pending, n + 1);
      RestartTorn(s, pending, cut, n);
    } else {
      assert pending[..n] == pending;
      RestartWhole(s, pending, cut);
    }
  }

  lemma RestartTorn(s: State, pending: seq<Rec>, cut: nat, n: nat)
    requires AllStorable(pending) && OnDisk(s, pending) && s.r <= cut <= |s.log| && n < |pending|
    requires |Frames(pending[..n])| <= cut - s.r < |Frames(pending[..n + 1])|
    ensures OnDisk(Opened(s.log[..cut], s.ckpt), pending[..n])
  {
    hide Frames, FrameOf, Storable, ReadCkpt, ReadFrame;
    var g, h, rest := Frames(pending[..n]), FrameOf(pending[n]), Frames(pending[n + 1..]);
    FramesPrefix(pending, n + 1);
    FramesAppend(pending[..n], [pending[n]]);
    assert pending[..n + 1] == pending[..n] + [pending[n]];
    assert pending[n] in pending;
    OneFrame(pending[n]);
    assert s.log[s.r..s.r + |g| + |h| + |rest|] == g + h + rest;
    CutInside(s.log, s.r, cut, g, h, rest);
    var log := s.log[..cut];
    assert log == log[..s.r + |g|] + h[..cut - s.r - |g|];
    TornFrame(log[..s.r + |g|], pending[n], cut - s.r - |g|);
  }

  lemma RestartWhole(s: State, pending: seq<Rec>, cut: nat)
    requires AllStorable(pending) && OnDisk(s, pending) && s.r + |Frames(pending)| <= cut <= |s.log|
    requires cut > s.w ==> ReadFrame(s.log[..cut], s.w) == None
    ensures OnDisk(Opened(s.log[..cut], s.ckpt), pending)
  {
    hide Frames, FrameOf, Storable, ReadCkpt, ReadFrame;
    var at := s.r + |Frames(pending)|;
    CutAfter(s.log, s.r, cut, Frames(pending));
    if at < cut <= s.w && ReadFrame(s.log[..cut], at).Some? {
      CutReads(s.log, cut, at);
    }
  }

  // ---------- every step ----------

  /** Every safe step keeps the invariant. Acknowledged records stay acknowledged,
      accepted ones stay accepted unless a crash cuts them off, a clean restart
      loses nothing, a refused send moves no cursor, and the cap is respected. */
  lemma StepKeeps(cfg: Config, y: Sys, e: Event)
    requires Inv(y) && Enabled(y, e) && Safe(cfg, y, e)
    ensures var z := Step(cfg, y, e);
            && Inv(z)
            && Prefix(y.acked, z.acked)
            && (!e.Restart? ==> Prefix(y.accepted, z.accepted))
            && (e.Restart? && e.cut >= y.s.w ==> z.accepted == y.accepted)
            && (e.Nack? ==> z.s == y.s)
            && (|y.s.log| <= cfg.maxBytes ==> |z.s.log| <= cfg.maxBytes)
  {
    hide OnDisk, Frames, FrameOf, Storable, Appended, Compacted, KeepsTail, ReadCkpt, Ordered, Repeats, ReadFrame;
    var p := Pending(y);
    OnDiskOrdered(y.s, p);
    match e
    case Append(rec) =>
      if Appended(cfg, y.s, rec).Some? {
        AppendStep(cfg, y, rec);
      }
    case Fetch => FetchStep(cfg, y);
    case Nack =>
    case Ack =>
    case Commit(elapsed) => CommitStep(cfg, y, elapsed);
    case Park =>
      TidyKeeps(cfg, y.s, p);
      OnDiskOrdered(Tidied(cfg, y.s), p);
    case Restart(cut) =>
      RestartKeeps(y.s, p, cut);
      var z := Step(cfg, y, e);
      assert Pending(z) == p[..Whole(p, cut - y.s.r)];
      OnDiskOrdered(z.s, Pending(z));
      assert p[..|p|] == p;
  }

  /** And only they do: after any other step the file no longer holds the queue. */
  lemma SafeIff(cfg: Config, y: Sys, e: Event)
    requires Inv(y) && Enabled(y, e)
    ensures Inv(Step(cfg, y, e)) <==> Safe(cfg, y, e)
  {
    hide OnDisk, Frames, FrameOf, Storable, Appended, Compacted, KeepsTail, ReadCkpt, Ordered, Repeats, ReadFrame, Inv;
    InvOnDisk(y);
    if Safe(cfg, y, e) {
      StepKeeps(cfg, y, e);
    } else if Inv(Step(cfg, y, e)) {
      var p := Pending(y);
      var z := Step(cfg, y, e);
      InvOnDisk(z);
      match e
      case Append(rec) =>
        assert Pending(z) == p + [rec];
        AppendTorn(cfg, y.s, p, rec);
      case Commit(elapsed) =>
        var t := Committed(y.s, y.pc.next);
        InvAtHead(y);
        CommitKeeps(y.s, p);
        assert Pending(z) == p[1..];
        UnsafeTidy(cfg, t, p[1..]);
      case Park =>
        UnsafeTidy(cfg, y.s, p);
      case Restart(cut) =>
        UnsafeRestart(y.s, p, cut);
    }
  }

  lemma InvAtHead(y: Sys)
    requires Inv(y)
    ensures InFlight(y.pc) ==>
              Pending(y) != [] && y.pc.rec == Pending(y)[0] && y.pc.next == y.s.r + |FrameOf(Pending(y)[0])|
  {
  }

  lemma UnsafeTidy(cfg: Config, s: State, pending: seq<Rec>)
    requires AllStorable(pending) && OnDisk(s, pending) && pending != [] && !KeepsTail(cfg, s)
    ensures !OnDisk(Tidied(cfg, s), pending)
  {
    hide OnDisk, Frames, FrameOf, Storable, Compacted, KeepsTail, ReadCkpt, ReadFrame;
    OnDiskOrdered(s, pending);
    FramedTail(cfg, s);
    var t := Tidied(cfg, s);
    if OnDisk(t, pending) {
      OnDiskOrdered(t, pending);
      NextReads(t, pending);
      FramesNotShort(pending);
    }
  }

  lemma UnsafeRestart(s: State, pending: seq<Rec>, cut: nat)
    requires AllStorable(pending) && OnDisk(s, pending) && cut <= |s.log|
    requires var n := Whole(pending, if cut < s.r then 0 else cut - s.r);
             OnDisk(Opened(s.log[..cut], s.ckpt), pending[..n])
    ensures ReadCkpt(s.ckpt) <= cut && (cut > s.w ==> ReadFrame(s.log[..cut], s.w) == None)
  {
    hide OnDisk, Frames, FrameOf, Storable, ReadCkpt, ReadFrame, Whole;
    var n := Whole(pending, if cut < s.r then 0 else cut - s.r);
    OnDiskOrdered(s, pending);
    OnDiskOrdered(Opened(s.log[..cut], s.ckpt), pending[..n]);
    if cut > s.w {
      WholeAll(pending, cut - s.r);
      assert pending[..n] == pending;
      NotTorn(s, pending);
      ReadsNothing(Opened(s.log[..cut], s.ckpt), pending);
    }
  }

  lemma WholeAll(recs: seq<Rec>, m: nat)
    requires AllStorable(recs) && |Frames(recs)| <= m
    ensures Whole(recs, m) == |recs|
  {
    hide Frames, FrameOf, Storable, Whole;
    var n := Whole(recs, m);
    WholeFits(recs, m);
    if n < |recs| {
      FramesPrefix(recs, n + 1);
    }
  }

  lemma NotTorn(s: State, pending: seq<Rec>)
    requires AllStorable(pending) && OnDisk(s, pending) && s.w < |s.log|
    ensures s.r + |Frames(pending)| == s.w
  {
    hide Frames, ReadFrame;
  }

  lemma ReadsNothing(s: State, pending: seq<Rec>)
    requires AllStorable(pending) && OnDisk(s, pending) && s.r + |Frames(pending)| < s.w
    ensures ReadFrame(s.log, s.r + |Frames(pending)|) == None
  {
    hide Frames, ReadFrame;
  }

  lemma OnDiskOrdered(s: State, pending: seq<Rec>)
    requires AllStorable(pending) && OnDisk(s, pending)
    ensures Ordered(s) && ReadCkpt(s.ckpt) == s.r && s.r + |Frames(pending)| <= s.w
  {
  }

  lemma AppendStep(cfg: Config, y: Sys, rec: Rec)
    requires Inv(y) && WfRec(rec) && Appended(cfg, y.s, rec).Some? && Safe(cfg, y, Append(rec))
    ensures var z := Step(cfg, y, Append(rec));
            Inv(z) && Prefix(y.accepted, z.accepted) && (|y.s.log| <= cfg.maxBytes ==> |z.s.log| <= cfg.maxBytes)
  {
    hide OnDisk, Frames, FrameOf, Storable, Appended, ReadCkpt, Ordered, WfRec, Repeats, ReadFrame;
    var p := Pending(y);
    OnDiskOrdered(y.s, p);
    if TornEnd(y) {
      AppendTorn(cfg, y.s, p, rec);
    } else {
      AppendKeeps(cfg, y.s, p, rec);
    }
    var t := Appended(cfg, y.s, rec).value;
    OnDiskOrdered(t, p + [rec]);
    AppendMoves(cfg, y.s, rec);
    var z := Step(cfg, y, Append(rec));
    assert Pending(z) == p + [rec];
  }

  /** Behind a torn end an append keeps the queue exactly when its frame repeats the tear. */
  lemma AppendTorn(cfg: Config, s: State, pending: seq<Rec>, rec: Rec)
    requires AllStorable(pending) && OnDisk(s, pending) && s.r + |Frames(pending)| < s.w && WfRec(rec)
    requires Appended(cfg, s, rec).Some?
    ensures Storable(rec) && AllStorable(pending + [rec])
    ensures OnDisk(Appended(cfg, s, rec).value, pending + [rec]) <==>
            Repeats(s.log[s.r + |Frames(pending)|..], FrameOf(rec))
    ensures |Appended(cfg, s, rec).value.log| <= cfg.maxBytes
  {
    hide Appended, OnDisk, Frames, FrameOf, Repeats;
    OnDiskOrdered(s, pending);
    EndsFile(s, pending);
    AppendedStorable(cfg, s, rec);
    AppendedAtEnd(cfg, s, rec);
    BehindTorn(s, pending, rec);
  }

  lemma AppendedStorable(cfg: Config, s: State, rec: Rec)
    requires s.w <= |s.log| && WfRec(rec) && Appended(cfg, s, rec).Some?
    ensures Storable(rec)
  {
    hide EncodeBody, WfRec;
  }

  lemma EndsFile(s: State, pending: seq<Rec>)
    requires AllStorable(pending) && OnDisk(s, pending) && s.r + |Frames(pending)| < s.w
    ensures s.w == |s.log|
  {
    hide Frames, ReadFrame;
  }

  lemma BehindTorn(s: State, pending: seq<Rec>, rec: Rec)
    requires AllStorable(pending) && OnDisk(s, pending) && s.r + |Frames(pending)| < s.w && Storable(rec)
    requires s.w + |FrameOf(rec)| < TWO_64
    ensures AllStorable(pending + [rec])
    ensures OnDisk(s.(log := s.log + FrameOf(rec), w := s.w + |FrameOf(rec)|), pending + [rec]) <==>
            Repeats(s.log[s.r + |Frames(pending)|..], FrameOf(rec))
  {
    hide Frames, FrameOf, ReadCkpt, ReadFrame, Storable, Repeats;
    var g, f := Frames(pending), FrameOf(rec);
    FramesAppend(pending, [rec]);
    OneFrame(rec);
    EndsFile(s, pending);
    BehindBytes(s.log, s.r, g, f);
  }

  lemma BehindBytes(log: bytes, r: nat, g: bytes, f: bytes)
    requires r + |g| <= |log| && log[r..r + |g|] == g
    ensures var end := r + |g|;
            (log + f)[r..end + |f|] == g + f && ReadFrame(log + f, end + |f|) == None <==> Repeats(log[end..], f)
  {
    hide ReadFrame, Repeats;
    var end := r + |g|;
    var x := log[end..] + f;
    Behind(log, r, g, f);
    ReadAfter(log[..end], x, |f|);
    FollowedBy(log, r, g, f, x);
    RepeatsIs(log[end..], f);
  }

  lemma FollowedBy(log: bytes, r: nat, g: bytes, f: bytes, x: bytes)
    requires r + |g| <= |log| && log[r..r + |g|] == g && |f| <= |x|
    ensures (log[..r + |g|] + x)[r..r + |g| + |f|] == g + f <==> f <= x
  {
    var t := log[..r + |g|] + x;
    assert t[r..r + |g| + |f|] == g + x[..|f|];
    assert (g + x[..|f|])[|g|..] == x[..|f|] && (g + f)[|g|..] == f;
  }

  lemma AppendMoves(cfg: Config, s: State, rec: Rec)
    requires Ordered(s) && Appended(cfg, s, rec).Some?
    ensures Appended(cfg, s, rec).value.r == s.r && Appended(cfg, s, rec).value.w >= s.w
  {
  }

  lemma FetchStep(cfg: Config, y: Sys)
    requires Inv(y) && y.pc.Ready?
    ensures var z := Step(cfg, y, Fetch); Inv(z) && z.accepted == y.accepted && z.acked == y.acked && z.s.log == y.s.log
  {
    hide OnDisk, Frames, FrameOf, Storable, ReadFrame, ReadCkpt, Next;
    var p := Pending(y);
    OnDiskOrdered(y.s, p);
    if p == [] {
      NextEnds(y.s);
      OnDiskOrdered(y.s.(w := y.s.r), []);
    } else {
      NextReads(y.s, p);
    }
  }

  lemma CommitStep(cfg: Config, y: Sys, elapsed: bool)
    requires Inv(y) && y.pc.Sent? && Safe(cfg, y, Commit(elapsed))
    ensures var z := Step(cfg, y, Commit(elapsed));
            Inv(z) && z.accepted == y.accepted && Prefix(y.acked, z.acked) && |z.s.log| <= |y.s.log|
  {
    hide OnDisk, Frames, FrameOf, Storable, ReadCkpt, KeepsTail, Compacted, PersistCkpt, Ordered;
    var p := Pending(y);
    var t := Committed(y.s, y.pc.next);
    CommitKeeps(y.s, p);
    OnDiskOrdered(t, p[1..]);
    if elapsed {
      TidyKeeps(cfg, t, p[1..]);
      OnDiskOrdered(Tidied(cfg, t), p[1..]);
    }
    var z := Step(cfg, y, Commit(elapsed));
    assert y.acked + p == (y.acked + [p[0]]) + p[1..];
    assert Prefix(z.acked, z.accepted);
    assert Pending(z) == p[1..];
  }

  // ---------- every run ----------

  function Run(cfg: Config, y: Sys, es: seq<Event>): Sys
    requires SafeRun(cfg, y, es)
    decreases |es|
  {
    if es == [] then y else Run(cfg, Step(cfg, y, es[0]), es[1..])
  }

  predicate SafeRun(cfg: Config, y: Sys, es: seq<Event>)
    decreases |es|
  {
    es == [] || (Placed(y) && WfHistory(y) && Enabled(y, es[0]) && Safe(cfg, y, es[0])
                 && SafeRun(cfg, Step(cfg, y, es[0]), es[1..]))
  }

  /** First in, first out, at least once. After every run the acknowledged records are
      a prefix of the accepted appends, in order; the others lie in the log; the
      log stays within its cap. */
  lemma {:induction false} RunDelivers(cfg: Config, y: Sys, es: seq<Event>)
    requires Inv(y) && SafeRun(cfg, y, es)
    ensures var z := Run(cfg, y, es);
            && Inv(z)
            && Prefix(y.acked, z.acked) && Prefix(z.acked, z.accepted)
            && ((forall e | e in es :: !e.Restart?) ==> Prefix(y.accepted, z.accepted))
            && (|y.s.log| <= cfg.maxBytes ==> |z.s.log| <= cfg.maxBytes)
    decreases |es|
  {
    hide Inv, Step, Safe, Enabled;
    InvHistory(y);
    if es != [] {
      StepKeeps(cfg, y, es[0]);
      RunDelivers(cfg, Step(cfg, y, es[0]), es[1..]);
      assert es[0] in es && forall e | e in es[1..] :: e in es;
    }
  }

  lemma InvHistory(y: Sys)
    requires Inv(y)
    ensures Placed(y) && WfHistory(y) && Prefix(y.acked, y.accepted)
  {
  }

  /** What is pending is what the file replays, exactly when no frame reads among the
      stale bytes past the end of the log. */
  lemma PendingReplays(y: Sys)
    requires Inv(y)
    ensures Replay(y.s.log, y.s.r) == Pending(y) <==> ReadFrame(y.s.log, y.s.w) == None
  {
    hide Replay, FrameOf, Storable, ReadFrame, ReadCkpt, Frames;
    var p := Pending(y);
    var at := y.s.r + |Frames(p)|;
    assert y.s.log == y.s.log[..y.s.r] + Frames(p) + y.s.log[at..];
    ReplayOver(y.s.log[..y.s.r], p, y.s.log[at..]);
    Unread(y.s.log, |y.s.log|);
    ReplayIsNothing(y.s.log, at);
    SameRest(p, Replay(y.s.log, at), []);
    assert p + [] == p;
  }

  /** Once the broker answers, the drainer delivers everything: one fetch, one send and
      one commit per record, after which it is caught up. */
  lemma {:induction false} DrainsAll(cfg: Config, y: Sys) returns (es: seq<Event>)
    requires Inv(y) && y.pc.Ready?
    ensures SafeRun(cfg, y, es) && |es| == 3 * |Pending(y)| + 1
    ensures var z := Run(cfg, y, es); Inv(z) && z.pc.Idle? && z.acked == y.accepted && z.s.r == z.s.w
    decreases |y.accepted| - |y.acked|
  {
    hide Inv, OnDisk, Safe, Step, Enabled;
    InvOnDisk(y);
    var p := Pending(y);
    if p == [] {
      CaughtUp(cfg, y);
      es := [Fetch];
      assert y.accepted == y.acked;
      Unroll(cfg, y, Fetch, []);
      assert [Fetch] + [] == [Fetch];
    } else {
      var z := DeliverOne(cfg, y);
      InvOnDisk(z);
      var rest := DrainsAll(cfg, z);
      assert Pending(z) == p[1..];
      es := [Fetch, Ack, Commit(false)] + rest;
      DeliverOneRun(cfg, y, z, rest);
    }
  }

  lemma CaughtUp(cfg: Config, y: Sys)
    requires Inv(y) && y.pc.Ready? && Pending(y) == []
    ensures Enabled(y, Fetch) && Safe(cfg, y, Fetch)
    ensures var z := Step(cfg, y, Fetch);
            Inv(z) && z.pc.Idle? && z.acked == y.acked && z.accepted == y.accepted && z.s.r == z.s.w
  {
    hide OnDisk, Frames, FrameOf, Storable, Next, Inv;
    InvOnDisk(y);
    StepKeeps(cfg, y, Fetch);
    NextEnds(y.s);
  }

  ghost predicate Delivers(cfg: Config, y: Sys, z: Sys)
    requires Inv(y) && y.pc.Ready?
  {
    var y1 := Step(cfg, y, Fetch);
    Inv(y1) && y1.pc.Sending?
    && var y2 := Step(cfg, y1, Ack);
       Inv(y2) && y2.pc.Sent? && z == Step(cfg, y2, Commit(false))
  }

  /** Fetch, send, commit: the head of the queue is acknowledged. */
  lemma DeliverOne(cfg: Config, y: Sys) returns (z: Sys)
    requires Inv(y) && y.pc.Ready? && Pending(y) != []
    ensures Inv(z) && z.pc.Ready? && z.accepted == y.accepted && z.acked == y.acked + [Pending(y)[0]]
    ensures Delivers(cfg, y, z)
  {
    hide OnDisk, Frames, FrameOf, Storable, Next, Inv, Compacted;
    InvOnDisk(y);
    StepKeeps(cfg, y, Fetch);
    NextReads(y.s, Pending(y));
    var y1 := Step(cfg, y, Fetch);
    InvOnDisk(y1);
    StepKeeps(cfg, y1, Ack);
    var y2 := Step(cfg, y1, Ack);
    InvOnDisk(y2);
    StepKeeps(cfg, y2, Commit(false));
    z := Step(cfg, y2, Commit(false));
  }

  lemma CanFetch(cfg: Config, y: Sys)
    requires Placed(y) && WfHistory(y) && y.pc.Ready?
    ensures Enabled(y, Fetch) && Safe(cfg, y, Fetch)
  {
  }

  lemma CanAck(cfg: Config, y: Sys)
    requires Placed(y) && WfHistory(y) && y.pc.Sending?
    ensures Enabled(y, Ack) && Safe(cfg, y, Ack)
  {
  }

  lemma CanCommit(cfg: Config, y: Sys)
    requires Placed(y) && WfHistory(y) && y.pc.Sent?
    ensures Enabled(y, Commit(false)) && Safe(cfg, y, Commit(false))
  {
  }

  lemma DeliverOneRun(cfg: Config, y: Sys, z: Sys, rest: seq<Event>)
    requires Inv(y) && y.pc.Ready? && Delivers(cfg, y, z) && SafeRun(cfg, z, rest)
    ensures SafeRun(cfg, y, [Fetch, Ack, Commit(false)] + rest)
    ensures Run(cfg, y, [Fetch, Ack, Commit(false)] + rest) == Run(cfg, z, rest)
  {
    hide Inv, OnDisk, Step, Safe, Enabled, Placed, WfHistory, SafeRun, Run;
    InvOnDisk(y);
    CanFetch(cfg, y);
    var y1 := Step(cfg, y, Fetch);
    InvOnDisk(y1);
    CanAck(cfg, y1);
    var y2 := Step(cfg, y1, Ack);
    InvOnDisk(y2);
    CanCommit(cfg, y2);
    Unroll(cfg, y2, Commit(false), rest);
    Unroll(cfg, y1, Ack, [Commit(false)] + rest);
    Unroll(cfg, y, Fetch, [Ack] + ([Commit(false)] + rest));
    assert [Fetch] + ([Ack] + ([Commit(false)] + rest)) == [Fetch, Ack, Commit(false)] + rest;
  }

  lemma InvOnDisk(y: Sys)
    requires Inv(y)
    ensures Placed(y) && WfHistory(y) && OnDisk(y.s, Pending(y))
  {
  }

  lemma Unroll(cfg: Config, y: Sys, e: Event, es: seq<Event>)
    requires Placed(y) && WfHistory(y) && Enabled(y, e) && Safe(cfg, y, e) && SafeRun(cfg, Step(cfg, y, e), es)
    ensures SafeRun(cfg, y, [e] + es) && Run(cfg, y, [e] + es) == Run(cfg, Step(cfg, y, e), es)
  {
    hide Step, Safe, Enabled, Placed, WfHistory;
    assert ([e] + es)[1..] == es;
  }
}
