/**
  The write-ahead log: what each operation does to the file, the checkpoint and the
  two cursors, and what a log replays after a restart.
*/
module WalLog {
  import opened Bytes
  import opened WalCodec
  import Crc

  const TWO_64: nat := 0x1_0000_0000_0000_0000

  type u64 = x: nat | x < TWO_64

  datatype Config = Config(maxBytes: u64, compactThreshold: u64)

  /** The two files' contents and the cursors: `w` ends the log, `r` starts what is
      not yet delivered. */
  datatype State = State(log: bytes, ckpt: bytes, w: nat, r: nat)

  predicate Ordered(s: State) {
    s.r <= s.w <= |s.log| < TWO_64
  }

  function Min(a: nat, b: nat): nat {
    if a <= b then a else b
  }

  /** `read_ckpt`: 0 when the file is missing or short. */
  function ReadCkpt(file: bytes): nat {
    if |file| < 8 then 0 else UnLe(file[..8])
  }

  function PersistCkpt(offset: nat): bytes {
    Le(offset, 8)
  }

  lemma CkptRoundTrip(offset: u64)
    ensures ReadCkpt(PersistCkpt(offset)) == offset
  {
    hide Le, UnLe;
    Widths();
    assert Pow256(8) == TWO_64 by {
      assert Pow256(5) == 256 * TWO_32 && Pow256(6) == 256 * Pow256(5) && Pow256(7) == 256 * Pow256(6);
    }
    UnLeOfLe(offset, 8);
    assert Le(offset, 8)[..8] == Le(offset, 8);
  }

  /** The checkpoint file: eight bytes, the lowest first. A shorter file reads as zero. */
  lemma CkptLayout(offset: u64, file: bytes)
    ensures var s := PersistCkpt(offset);
            |s| == 8 && s[0] as int + 0x100 * (s[1] as int + 0x100 * (s[2] as int + 0x100 * (s[3] as int
              + 0x100 * (s[4] as int + 0x100 * (s[5] as int + 0x100 * (s[6] as int + 0x100 * s[7] as int))))))
              == offset
    ensures |file| < 8 ==> ReadCkpt(file) == 0
  {
    hide Le, UnLe;
    CkptRoundTrip(offset);
    UnLeEight(PersistCkpt(offset));
    assert PersistCkpt(offset)[..8] == PersistCkpt(offset);
  }

  lemma UnLeEight(s: bytes)
    requires |s| == 8
    ensures s[0] as int + 0x100 * (s[1] as int + 0x100 * (s[2] as int + 0x100 * (s[3] as int
              + 0x100 * (s[4] as int + 0x100 * (s[5] as int + 0x100 * (s[6] as int + 0x100 * s[7] as int))))))
              == UnLe(s)
  {
    forall i | 0 <= i < 8
      ensures UnLe(s[i..]) == s[i] as int + 0x100 * UnLe(s[i + 1..])
    {
      assert s[i..][1..] == s[i + 1..];
    }
    hide UnLe;
    assert s[0..] == s && UnLe(s[8..]) == 0 by { NoBytes(); assert s[8..] == []; }
  }

  lemma NoBytes()
    ensures UnLe([]) == 0
  {
  }

  // ---------- the operations ----------

  /** Opening resumes from the checkpoint, wherever the log now ends. */
  function Opened(log: bytes, ckpt: bytes): State {
    State(log, ckpt, |log|, Min(ReadCkpt(ckpt), |log|))
  }

  /** A positioned write: it overwrites, and extends the file when it runs past its end. */
  function WriteAt(log: bytes, at: nat, data: bytes): bytes
    requires at <= |log|
  {
    log[..at] + data + (if at + |data| < |log| then log[at + |data|..] else [])
  }

  /** `None` when the record is refused, and nothing changes. */
  function Appended(cfg: Config, s: State, rec: Rec): Option<State>
    requires s.w <= |s.log|
  {
    var body :- EncodeBody(rec);
    if s.w + HEADER + |body| > cfg.maxBytes || |body| >= TWO_32 then None
    else Some(s.(log := WriteAt(s.log, s.w, Frame(body)), w := s.w + HEADER + |body|))
  }

  /** The next undelivered record. A frame that does not read ends the log there. */
  function Next(s: State): (State, Option<Read>) {
    if s.r >= s.w then (s, None)
    else
      match ReadFrame(s.log, s.r)
      case Some(read) => (s, Some(read))
      case None => (s.(w := s.r), None)
  }

  function Committed(s: State, next: nat): State {
    s.(r := next, ckpt := PersistCkpt(next))
  }

  /** Whether `maybe_compact` leaves everything as it is. */
  predicate Skips(cfg: Config, s: State) {
    s.r == 0 || (s.r < s.w && s.r < cfg.compactThreshold)
  }

  /** `None` is the error of a live tail too long to frame; nothing changes then. */
  function Compacted(cfg: Config, s: State): Option<State>
    requires s.r <= s.w <= |s.log|
  {
    if Skips(cfg, s) then Some(s)
    else
      var live := s.w - s.r;
      if live >= TWO_32 then None
      else
        var log := if live > 0 then WriteAt(s.log, 0, Frame(s.log[s.r..s.w])) else s.log;
        Some(State(log[..live], PersistCkpt(0), live, 0))
  }

  // ---------- what a log holds ----------

  predicate AllStorable(recs: seq<Rec>) {
    forall r | r in recs :: Storable(r)
  }

  function Frames(recs: seq<Rec>): bytes
    requires AllStorable(recs)
  {
    if recs == [] then [] else FrameOf(recs[0]) + Frames(recs[1..])
  }

  lemma {:induction false} FramesAppend(a: seq<Rec>, b: seq<Rec>)
    requires AllStorable(a) && AllStorable(b)
    ensures AllStorable(a + b) && Frames(a + b) == Frames(a) + Frames(b)
    decreases |a|
  {
    hide Storable, FrameOf;
    if a == [] {
      assert a + b == b;
    } else {
      FramesAppend(a[1..], b);
      assert (a + b)[1..] == a[1..] + b;
      assert (a + b)[0] == a[0];
    }
  }

  /** The records repeated `next` and `commit` deliver from `at` on. */
  function Replay(log: bytes, at: nat): seq<Rec>
    decreases |log| - at
  {
    match ReadFrame(log, at)
    case None => []
    case Some(read) => [read.rec] + Replay(log, read.next)
  }

  /** Whole frames replay in order, and then whatever follows them. */
  lemma {:induction false} ReplayOver(p: bytes, recs: seq<Rec>, k: bytes)
    requires AllStorable(recs)
    ensures var log := p + Frames(recs) + k;
            Replay(log, |p|) == recs + Replay(log, |p| + |Frames(recs)|)
    decreases |recs|
  {
    hide ReadFrame, FrameOf, Storable;
    var log := p + Frames(recs) + k;
    if recs == [] {
      assert [] + Replay(log, |p|) == Replay(log, |p|);
    } else {
      var f, rest := FrameOf(recs[0]), Frames(recs[1..]);
      assert log == p + f + (rest + k) == (p + f) + rest + k;
      ReadFrameOver(p, recs[0], rest + k);
      ReplayOver(p + f, recs[1..], k);
      assert recs == [recs[0]] + recs[1..];
    }
  }

  /** How many of the records have their whole frame in the first `m` bytes. */
  function Whole(recs: seq<Rec>, m: nat): (n: nat)
    requires AllStorable(recs)
    ensures n <= |recs|
  {
    if recs == [] || |FrameOf(recs[0])| > m then 0 else 1 + Whole(recs[1..], m - |FrameOf(recs[0])|)
  }

  /** `Whole` is the longest prefix that fits. */
  lemma {:induction false} WholeFits(recs: seq<Rec>, m: nat)
    requires AllStorable(recs)
    ensures var n := Whole(recs, m);
            |Frames(recs[..n])| <= m && (n < |recs| ==> m < |Frames(recs[..n + 1])|)
    decreases |recs|
  {
    hide FrameOf, Storable;
    if recs != [] && |FrameOf(recs[0])| <= m {
      var n := Whole(recs[1..], m - |FrameOf(recs[0])|);
      WholeFits(recs[1..], m - |FrameOf(recs[0])|);
      assert recs[..n + 1][1..] == recs[1..][..n];
      if n < |recs[1..]| {
        assert recs[..n + 2][1..] == recs[1..][..n + 1];
      }
    } else if recs != [] {
      assert recs[..1] == [recs[0]];
      assert Frames(recs[..1]) == FrameOf(recs[0]) + Frames(recs[..1][1..]);
    }
  }

  /** Crash recovery. A log of whole frames, cut anywhere, replays exactly the records
      whose whole frames are left, in order, and then ends. */
  lemma {:induction false} RecoverCut(p: bytes, recs: seq<Rec>, m: nat)
    requires AllStorable(recs) && m <= |Frames(recs)|
    ensures Replay(p + Frames(recs)[..m], |p|) == recs[..Whole(recs, m)]
    decreases |recs|
  {
    hide ReadFrame, FrameOf, Storable;
    var log := p + Frames(recs)[..m];
    if recs == [] {
      NothingLeft(log, |p|);
    } else {
      var f, rest := FrameOf(recs[0]), Frames(recs[1..]);
      if |f| > m {
        assert Frames(recs)[..m] == f[..m];
        TornFrame(p, recs[0], m);
      } else {
        assert log == p + f + rest[..m - |f|] == (p + f) + rest[..m - |f|];
        ReadFrameOver(p, recs[0], rest[..m - |f|]);
        RecoverCut(p + f, recs[1..], m - |f|);
        var n := Whole(recs[1..], m - |f|);
        assert recs[..n + 1] == [recs[0]] + recs[1..][..n];
      }
    }
  }

  lemma NothingLeft(log: bytes, at: nat)
    requires at + HEADER > |log|
    ensures Replay(log, at) == []
  {
  }

  // ---------- where the code as written loses records ----------

  /** Pending records in a log whose cursors are in order. */
  predicate Holds(s: State, pending: seq<Rec>) {
    Ordered(s) && AllStorable(pending) && s.log[s.r..s.w] == Frames(pending)
  }

  lemma FramesLength(recs: seq<Rec>)
    requires AllStorable(recs)
    ensures Frames(recs) == [] <==> recs == []
  {
  }

  /** A running log replays what is pending, and then whatever stale bytes lie past its
      end: none, unless a torn tail was discarded and not yet reclaimed. */
  lemma ReplayHeld(s: State, pending: seq<Rec>)
    requires Holds(s, pending)
    ensures Replay(s.log, s.r) == pending + Replay(s.log, s.w)
    ensures s.w == |s.log| ==> Replay(s.log, s.r) == pending
  {
    hide Replay, Frames, Storable;
    var p, k := s.log[..s.r], s.log[s.w..];
    assert s.log == p + s.log[s.r..s.w] + k;
    ReplayOver(p, pending, k);
    if s.w == |s.log| {
      NothingLeft(s.log, s.w);
    }
  }

  /** Moving a live tail frames it a second time and then cuts the end off: what is
      left is a header that promises more bytes than the file has, and nothing reads. */
  lemma LiveTailIsLost(cfg: Config, s: State, pending: seq<Rec>)
    requires Holds(s, pending) && pending != [] && !Skips(cfg, s) && s.w - s.r < TWO_32
    ensures var t := Compacted(cfg, s).value;
            Replay(t.log, t.r) == [] && Next(t) == (t.(w := 0), None)
  {
    hide Storable, Frames, Frame, ReadFrame, Le, Compacted, Replay, PersistCkpt;
    FramesNotShort(pending);
    var live := s.w - s.r;
    var tail := s.log[s.r..s.w];
    CompactedLive(cfg, s);
    var log := Frame(tail)[..live];
    FrameStart(tail);
    assert log[0..4] == Frame(tail)[0..4];
    PromisesTooMuch(log, live);
    ReplayIsNothing(log, 0);
  }

  lemma FramesNotShort(pending: seq<Rec>)
    requires AllStorable(pending) && pending != []
    ensures |Frames(pending)| >= HEADER
  {
    hide FrameOf;
  }

  lemma ReplayIsNothing(log: bytes, at: nat)
    ensures Replay(log, at) == [] <==> ReadFrame(log, at) == None
  {
    hide ReadFrame;
  }

  /** What compaction leaves of a live tail. */
  lemma CompactedLive(cfg: Config, s: State)
    requires Ordered(s) && !Skips(cfg, s) && 0 < s.w - s.r < TWO_32
    ensures var live := s.w - s.r;
            Compacted(cfg, s) == Some(State(Frame(s.log[s.r..s.w])[..live], PersistCkpt(0), live, 0))
  {
    hide Frame, PersistCkpt;
    var data := Frame(s.log[s.r..s.w]);
    assert WriteAt(s.log, 0, data)[..|data|] == data;
    assert WriteAt(s.log, 0, data)[..s.w - s.r] == data[..s.w - s.r];
  }

  lemma FrameStart(body: bytes)
    ensures Frame(body)[0..4] == Le(|body|, 4)
  {
    hide Crc.Crc32, Crc.LittleEndian, Le;
  }

  /** A header that promises the whole file as body does not read. */
  lemma PromisesTooMuch(log: bytes, live: nat)
    requires HEADER <= live == |log| < TWO_32 && log[0..4] == Le(live, 4)
    ensures ReadFrame(log, 0) == None
  {
    hide Crc.Crc32, Crc.WordOf, Le, UnLe, DecodeBody, Pow256;
    Widths();
    UnLeOfLe(live, 4);
  }

  /** A discarded torn tail stays in the file until a drained compaction cuts it off,
      which happens exactly when something was acknowledged before it. */
  lemma StaleBytesClearedIff(cfg: Config, s: State)
    requires Ordered(s) && s.r == s.w < |s.log|
    ensures var t := Tidied(cfg, s); |t.log| == t.w <==> s.r != 0
  {
  }

  /** Exactly when `maybe_compact` keeps what is pending. */
  lemma CompactionKeepsIff(cfg: Config, s: State, pending: seq<Rec>)
    requires Holds(s, pending) && s.w == |s.log|
    ensures var t := match Compacted(cfg, s) case Some(t) => t case None => s;
            Replay(t.log, t.r) == pending <==>
            s.r == 0 || s.r == s.w || s.r < cfg.compactThreshold || s.w - s.r >= TWO_32
  {
    hide Replay;
    ReplayHeld(s, pending);
    FramesLength(pending);
    if !Skips(cfg, s) && s.w - s.r < TWO_32 {
      if pending != [] {
        LiveTailIsLost(cfg, s, pending);
      } else {
        NothingLeft([], 0);
      }
    }
  }

  /** A checkpoint left ahead of a shortened log. Compaction shrinks the log before it
      resets the checkpoint; a crash in between leaves the old checkpoint `c` beside an
      empty log. What is then appended survives the next restart exactly when there is
      nothing of it, or `c` was 0. */
  lemma StaleCheckpoint(ckpt: bytes, recs: seq<Rec>)
    requires AllStorable(recs)
    ensures var s := Opened(Frames(recs), ckpt);
            Replay(s.log, s.r) == recs <==> ReadCkpt(ckpt) == 0 || recs == []
  {
    hide Frames, Replay, Storable, ReadCkpt;
    var log := Frames(recs);
    var at := Min(ReadCkpt(ckpt), |log|);
    FramesLength(recs);
    if at == 0 {
      assert [] + log + [] == log;
      ReplayOver([], recs, []);
      NothingLeft(log, |log|);
    } else {
      ReplayBytes(log, at);
    }
  }

  /** Opening a running log again loses nothing exactly when no frame reads among the
      stale bytes past its end. */
  lemma ReopenKeepsIff(s: State, pending: seq<Rec>)
    requires Holds(s, pending) && ReadCkpt(s.ckpt) == s.r
    ensures var t := Opened(s.log, s.ckpt);
            Replay(t.log, t.r) == pending <==> ReadFrame(s.log, s.w) == None
  {
    hide Holds, ReadFrame, ReadCkpt;
    ReplayHeld(s, pending);
    HoldsOrdered(s, pending);
  }

  lemma HoldsOrdered(s: State, pending: seq<Rec>)
    requires Holds(s, pending)
    ensures Ordered(s)
  {
  }

  /** Pending records, and behind them bytes that do not read, to the end of the file. */
  predicate Torn(s: State, pending: seq<Rec>)
    requires AllStorable(pending)
  {
    var end := s.r + |Frames(pending)|;
    Ordered(s) && end < s.w == |s.log| && s.log[s.r..end] == Frames(pending) && ReadFrame(s.log, end) == None
  }

  /** Behind `junk`, the bytes of `f` begin where the junk does, and what they leave over
      at the end does not read. */
  predicate Repeats(junk: bytes, f: bytes) {
    f <= junk + f && ReadFrame(junk + f, |f|) == None
  }

  /** A record appended behind a torn tail, before the drainer has reached the tear, is
      accepted. It survives exactly when its frame repeats the junk in front of it, so
      that the reader takes the junk for the frame's own beginning. */
  lemma BehindTheTear(cfg: Config, s: State, pending: seq<Rec>, rec: Rec)
    requires AllStorable(pending) && Torn(s, pending) && Storable(rec) && Appended(cfg, s, rec).Some?
    ensures var t := Appended(cfg, s, rec).value;
            Replay(t.log, t.r) == pending + [rec] <==> Repeats(s.log[s.r + |Frames(pending)|..], FrameOf(rec))
  {
    hide Replay, Frames, ReadFrame, FrameOf, Storable, Repeats, Appended;
    var end := s.r + |Frames(pending)|;
    var junk, f := s.log[end..], FrameOf(rec);
    AppendedAtEnd(cfg, s, rec);
    Behind(s.log, s.r, Frames(pending), f);
    ReplayOver(s.log[..s.r], pending, junk + f);
    ReplaysOne(s.log[..end], junk + f, rec);
    SameRest(pending, Replay(s.log + f, end), [rec]);
    RepeatsIs(junk, f);
  }

  lemma SameRest(a: seq<Rec>, b: seq<Rec>, c: seq<Rec>)
    ensures a + b == a + c <==> b == c
  {
    assert (a + b)[|a|..] == b && (a + c)[|a|..] == c;
  }

  lemma Behind(log: bytes, r: nat, g: bytes, f: bytes)
    requires r + |g| <= |log| && log[r..r + |g|] == g
    ensures log + f == log[..r] + g + (log[r + |g|..] + f) == log[..r + |g|] + (log[r + |g|..] + f)
  {
  }

  lemma RepeatsIs(junk: bytes, f: bytes)
    ensures Repeats(junk, f) <==> f <= junk + f && ReadFrame(junk + f, |f|) == None
  {
  }

  lemma AppendedAtEnd(cfg: Config, s: State, rec: Rec)
    requires s.w == |s.log| && Storable(rec) && Appended(cfg, s, rec).Some?
    ensures Appended(cfg, s, rec) == Some(s.(log := s.log + FrameOf(rec), w := s.w + |FrameOf(rec)|))
    ensures s.w + |FrameOf(rec)| <= cfg.maxBytes
  {
    hide Frame, EncodeBody, WfRec;
    var f := FrameOf(rec);
    assert s.log[..s.w] + f + [] == s.log + f;
  }

  /** What follows `p` replays one record exactly when it starts with that record's frame
      and nothing reads after it. */
  lemma ReplaysOne(p: bytes, x: bytes, rec: Rec)
    requires Storable(rec)
    ensures Replay(p + x, |p|) == [rec] <==> FrameOf(rec) <= x && ReadFrame(x, |FrameOf(rec)|) == None
  {
    hide ReadFrame, FrameOf, Storable, Replay;
    var f := FrameOf(rec);
    ReadAfter(p, x, 0);
    ReadAfter(p, x, |f|);
    ReplayIsOne(p + x, |p|, rec);
    if f <= x {
      assert x == [] + f + x[|f|..];
      ReadFrameOver([], rec, x[|f|..]);
    } else if ReadFrame(x, 0).Some? {
      ReadIsFrame(x, 0);
      assert x[0..ReadFrame(x, 0).value.next] <= x;
    }
    if ReadFrame(x, 0).Some? && ReadFrame(x, 0).value.rec == rec {
      ReadIsFrame(x, 0);
    }
  }

  lemma ReplayIsOne(log: bytes, at: nat, rec: Rec)
    ensures Replay(log, at) == [rec] <==>
            ReadFrame(log, at).Some? && ReadFrame(log, at).value.rec == rec
            && ReadFrame(log, ReadFrame(log, at).value.next) == None
  {
    hide ReadFrame;
    if ReadFrame(log, at).Some? {
      var read := ReadFrame(log, at).value;
      var rest := Replay(log, read.next);
      assert ([read.rec] + rest)[0] == read.rec && ([read.rec] + rest)[1..] == rest;
      assert [rec][1..] == [];
      assert rest == [] <==> ReadFrame(log, read.next) == None;
      assert rest == [] ==> [read.rec] + rest == [read.rec];
    }
  }

  /** One stray zero byte is enough: no frame repeats it. */
  lemma OneByteTear(cfg: Config, rec: Rec, ckpt: bytes)
    requires Storable(rec) && 1 + |FrameOf(rec)| <= cfg.maxBytes
    ensures var s := Opened([0], ckpt); Appended(cfg, s, rec).Some?
    ensures ReadCkpt(ckpt) == 0 ==> Replay(Appended(cfg, Opened([0], ckpt), rec).value.log, 0) != [rec]
  {
    hide ReadFrame, ReadCkpt, Replay, Repeats;
    var s := Opened([0], ckpt);
    if ReadCkpt(ckpt) == 0 {
      Unread([0], 0);
      assert s.log[0..0] == [] && s.log[0..] == [0];
      BehindTheTear(cfg, s, [], rec);
      RepeatsIs([0], FrameOf(rec));
      NoZeroFrame(rec);
    }
  }

  lemma Unread(log: bytes, at: nat)
    requires at + HEADER > |log|
    ensures ReadFrame(log, at) == None
  {
  }

  lemma NoZeroFrame(rec: Rec)
    requires Storable(rec)
    ensures !(FrameOf(rec) <= [0] + FrameOf(rec))
  {
    hide Crc.Crc32, Crc.LittleEndian, EncodeBody, Le, UnLe;
    var f, body := FrameOf(rec), EncodeBody(rec).value;
    if f <= [0] + f {
      assert f[0] == 0 && f[1] == f[0] && f[2] == f[1] && f[3] == f[2];
      assert Le(|body|, 4) == f[..4] == [0, 0, 0, 0];
      Widths();
      UnLeOfLe(|body|, 4);
      ZeroBytes();
      BodyNotEmpty(rec);
    }
  }

  lemma ZeroBytes()
    ensures UnLe([0, 0, 0, 0]) == 0
  {
    assert UnLe([0]) == 0 && UnLe([0, 0]) == 0 && UnLe([0, 0, 0]) == 0;
  }

  lemma BodyNotEmpty(rec: Rec)
    requires EncodeBody(rec).Some?
    ensures |EncodeBody(rec).value| >= 6
  {
  }

  /** Replaying from an offset reads no more bytes than follow it. */
  lemma {:induction false} ReplayBytes(log: bytes, at: nat)
    requires at <= |log|
    ensures AllStorable(Replay(log, at)) && |Frames(Replay(log, at))| <= |log| - at
    decreases |log| - at
  {
    hide ReadFrame, FrameOf, Storable;
    match ReadFrame(log, at)
    case None =>
    case Some(read) =>
      ReadIsFrame(log, at);
      ReplayBytes(log, read.next);
      var rest := Replay(log, read.next);
      assert ([read.rec] + rest)[1..] == rest;
  }

  // ---------- what every log keeps ----------

  /** Reading never runs past the end: what is live is whole frames, or ends with the file. */
  ghost predicate Sound(s: State) {
    Ordered(s) && (s.w == |s.log| || exists pending :: Holds(s, pending))
  }

  /** `maybe_compact`, its error ignored as the drainer ignores it. */
  function Tidied(cfg: Config, s: State): State
    requires s.r <= s.w <= |s.log|
  {
    match Compacted(cfg, s)
    case None => s
    case Some(t) => t
  }

  lemma HeldNext(s: State, pending: seq<Rec>)
    requires Holds(s, pending) && s.r < s.w
    ensures pending != [] && ReadFrame(s.log, s.r) == Some(Read(pending[0], s.r + |FrameOf(pending[0])|))
    ensures s.r + |FrameOf(pending[0])| <= s.w && AllStorable(pending[1..])
    ensures s.log[s.r + |FrameOf(pending[0])|..s.w] == Frames(pending[1..])
  {
    hide ReadFrame, Storable, FrameOf;
    var f, rest := FrameOf(pending[0]), Frames(pending[1..]);
    var p, k := s.log[..s.r], rest + s.log[s.w..];
    assert s.log == p + s.log[s.r..s.w] + s.log[s.w..];
    assert s.log == p + f + k;
    ReadFrameOver(p, pending[0], k);
    assert s.log[s.r + |f|..s.w] == s.log[s.r..s.w][|f|..] == rest;
  }

  /** The drainer is never handed an offset past the end of the log. */
  lemma SoundNext(s: State)
    requires Sound(s)
    ensures Sound(Next(s).0) && Next(s).0.r == s.r && Next(s).0.log == s.log
    ensures Next(s).1.Some? ==> Next(s).0 == s && s.r < Next(s).1.value.next <= s.w
  {
    hide ReadFrame, Storable, FrameOf, Frames;
    if s.w < |s.log| && s.r < s.w {
      var pending :| Holds(s, pending);
      HeldNext(s, pending);
    }
    if Next(s).1.None? && s.r < s.w {
      var t := s.(w := s.r);
      assert Frames([]) == [] by { NoFrames(); }
      assert Holds(t, []);
    }
  }

  lemma NoFrames()
    ensures Frames([]) == []
  {
  }

  lemma SoundCommit(s: State)
    requires Sound(s) && Next(s).1.Some?
    ensures Sound(Committed(s, Next(s).1.value.next))
  {
    hide ReadFrame, Storable, FrameOf, Frames, PersistCkpt;
    SoundNext(s);
    if s.w < |s.log| {
      var pending :| Holds(s, pending);
      HeldNext(s, pending);
      assert Holds(Committed(s, Next(s).1.value.next), pending[1..]);
    }
  }

  lemma SoundAppend(cfg: Config, s: State, rec: Rec)
    requires Sound(s) && WfRec(rec) && Appended(cfg, s, rec).Some?
    ensures Sound(Appended(cfg, s, rec).value)
  {
    hide Frame, EncodeBody, WfRec;
    var t := Appended(cfg, s, rec).value;
    if s.w < |s.log| {
      var pending :| Holds(s, pending);
      var g := FrameOf(rec);
      FramesAppend(pending, [rec]);
      assert Frames([rec]) == g + [];
      assert t.log == s.log[..s.w] + g + t.log[t.w..];
      assert s.log[..s.w][s.r..] == Frames(pending);
      assert t.log[s.r..t.w] == Frames(pending) + g;
      assert Holds(t, pending + [rec]);
    }
  }

  /** So the length of the live tail is never negative, and compaction keeps it so. */
  lemma SoundTidy(cfg: Config, s: State)
    requires Sound(s)
    ensures Sound(Tidied(cfg, s))
  {
    hide Frame, PersistCkpt, Frames;
  }
}
