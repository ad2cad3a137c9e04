/**
  The write-ahead log as the process holds it: files, cursors, and the drain loop.
*/
module Wal {
  import opened Bytes
  import opened WalCodec
  import opened WalLog
  import opened WalRuns
  import Crc
  import Utf8

  /** `encode_body`, filling one buffer. */
  method Encode(rec: Rec) returns (r: Option<bytes>)
    ensures r == EncodeBody(rec)
  {
    if |rec.topic| >= TWO_16 || |rec.key| >= TWO_32 {
      return None;
    }
    var body := Le(|rec.topic|, 2);
    body := body + rec.topic;
    body := body + Le(|rec.key|, 4);
    body := body + rec.key;
    body := body + rec.payload;
    assert body == Le(|rec.topic|, 2) + (rec.topic + (Le(|rec.key|, 4) + (rec.key + rec.payload)));
    r := Some(body);
  }

  /** `decode_body`, advancing one cursor. */
  method Decode(body: bytes) returns (r: Option<Rec>)
    ensures r == DecodeBody(body)
  {
    hide UnLe, Utf8.Valid;
    var at := 0;
    if at + 2 > |body| {
      return None;
    }
    var topicLen := UnLe(body[at..at + 2]);
    at := at + 2;
    if at + topicLen > |body| {
      return None;
    }
    var topic := body[at..at + topicLen];
    assert topic == body[2..][..topicLen];
    if !Utf8.Valid(topic) {
      return None;
    }
    at := at + topicLen;
    assert body[2..][topicLen..] == body[at..];
    if at + 4 > |body| {
      return None;
    }
    assert body[at..][..4] == body[at..at + 4] && body[at..][4..] == body[at + 4..];
    var keyLen := UnLe(body[at..at + 4]);
    at := at + 4;
    if at + keyLen > |body| {
      return None;
    }
    assert body[at..][..keyLen] == body[at..at + keyLen] && body[at..][keyLen..] == body[at + keyLen..];
    var key := body[at..at + keyLen];
    at := at + keyLen;
    r := Some(Rec(topic, key, body[at..]));
  }

  class Log {
    var log: bytes
    var ckpt: bytes
    var writeOffset: nat
    var readOffset: nat
    const cfg: Config

    ghost function Model(): State
      reads this
    {
      State(log, ckpt, writeOffset, readOffset)
    }

    ghost predicate Valid()
      reads this
    {
      Sound(Model())
    }

    /** Opens the log on the files a previous run left. */
    constructor (cfg: Config, log: bytes, ckpt: bytes)
      requires |log| < TWO_64
      ensures Valid() && Model() == Opened(log, ckpt) && this.cfg == cfg
    {
      this.cfg := cfg;
      this.log := log;
      this.ckpt := ckpt;
      writeOffset := |log|;
      readOffset := Min(ReadCkpt(ckpt), |log|);
    }

    /** Writes one frame at `at`; `false` when the body is too long to frame. */
    method WriteFrame(at: nat, body: bytes) returns (ok: bool)
      requires at <= |log|
      modifies this`log
      ensures ok == (|body| < TWO_32)
      ensures log == if ok then WriteAt(old(log), at, Frame(body)) else old(log)
    {
      if |body| >= TWO_32 {
        return false;
      }
      var crc := Crc.ComputeCrc32(body);
      var header := Le(|body|, 4) + Crc.LittleEndian(crc);
      assert header + body == Frame(body);
      log := WriteAt(log, at, header + body);
      ok := true;
    }

    /** Appends one record; `false` when it is refused. */
    method Append(rec: Rec) returns (ok: bool)
      requires Valid() && WfRec(rec)
      modifies this`log, this`writeOffset
      ensures Valid()
      ensures match Appended(cfg, old(Model()), rec)
              case None => !ok && Model() == old(Model())
              case Some(t) => ok && Model() == t
    {
      hide Frame;
      if Appended(cfg, Model(), rec).Some? {
        SoundAppend(cfg, Model(), rec);
      }
      var body := Encode(rec);
      if body.None? {
        return false;
      }
      var frameLen := HEADER + |body.value|;
      if writeOffset + frameLen > cfg.maxBytes {
        return false;
      }
      ok := WriteFrame(writeOffset, body.value);
      if ok {
        writeOffset := writeOffset + frameLen;
      }
    }

    /** Reads the frame at `at`, if it is whole, intact and decodes. */
    method ReadRecord(at: nat) returns (r: Option<Read>)
      ensures r == ReadFrame(log, at)
    {
      hide Crc.Crc32, Crc.WordOf, UnLe, DecodeBody;
      if at + HEADER > |log| {
        return None;
      }
      var header := log[at..at + HEADER];
      assert header[0..4] == log[at..at + 4] && header[4..8] == log[at + 4..at + HEADER];
      var len := UnLe(header[0..4]);
      if at + HEADER + len > |log| {
        return None;
      }
      var body := log[at + HEADER..at + HEADER + len];
      var crc := Crc.ComputeCrc32(body);
      if crc != Crc.WordOf(header[4..8]) {
        return None;
      }
      var rec := Decode(body);
      if rec.None? {
        return None;
      }
      r := Some(Read(rec.value, at + HEADER + len));
    }

    /** The next undelivered record; a frame that does not read ends the log. */
    method Fetch() returns (r: Option<Read>)
      requires Valid()
      modifies this`writeOffset
      ensures Valid() && (Model(), r) == Next(old(Model()))
      ensures r.Some? ==> Model() == old(Model()) && r.value.next <= writeOffset
    {
      SoundNext(Model());
      if readOffset >= writeOffset {
        return None;
      }
      r := ReadRecord(readOffset);
      if r.None? {
        writeOffset := readOffset;
      }
    }

    /** Advances the acknowledged cursor past the record last fetched, and persists it. */
    method Commit(next: nat)
      requires Valid() && Next(Model()).1.Some? && next == Next(Model()).1.value.next
      modifies this`readOffset, this`ckpt
      ensures Valid() && Model() == Committed(old(Model()), next)
    {
      SoundCommit(Model());
      readOffset := next;
      ckpt := PersistCkpt(next);
    }

    /** Reclaims the acknowledged prefix; `false` is an I/O error that changes nothing. */
    method MaybeCompact() returns (ok: bool)
      requires Valid()
      modifies this
      ensures Valid() && ok == Compacted(cfg, old(Model())).Some?
      ensures Model() == Tidied(cfg, old(Model()))
    {
      hide Frame, PersistCkpt;
      SoundTidy(cfg, Model());
      var caughtUp := readOffset >= writeOffset;
      if readOffset == 0 || (!caughtUp && readOffset < cfg.compactThreshold) {
        return true;
      }
      var live := writeOffset - readOffset;
      if live > 0 {
        ok := WriteFrame(0, log[readOffset..writeOffset]);
        if !ok {
          return;
        }
      }
      log := log[..live];
      writeOffset := live;
      readOffset := 0;
      ckpt := PersistCkpt(0);
      ok := true;
    }
  }

  // ---------- the drain loop ----------

  /** What the world answers in one turn of the loop: whether the broker acknowledges,
      and whether the group-commit interval has elapsed. */
  datatype Turn = Turn(ack: bool, elapsed: bool)

  ghost function TurnOf(cfg: Config, s: State, t: Turn): (State, seq<Rec>)
    requires Sound(s)
  {
    SoundNext(s);
    var (s1, next) := Next(s);
    match next
    case None => (Tidied(cfg, s1), [])
    case Some(read) =>
      if t.ack then
        var s2 := Committed(s1, read.next);
        (if t.elapsed then Tidied(cfg, s2) else s2, [read.rec])
      else (s1, [])
  }

  lemma SoundTurn(cfg: Config, s: State, t: Turn)
    requires Sound(s)
    ensures Sound(TurnOf(cfg, s, t).0)
  {
    hide Sound, Next, Tidied, Committed;
    SoundNext(s);
    var (s1, next) := Next(s);
    if next.None? {
      SoundTidy(cfg, s1);
    } else if t.ack {
      SoundCommit(s);
      SoundTidy(cfg, Committed(s1, next.value.next));
    }
  }

  /** The log after a script of turns, and the records delivered. */
  ghost function Turns(cfg: Config, s: State, script: seq<Turn>): (State, seq<Rec>)
    requires Sound(s)
    decreases |script|, 0
  {
    if script == [] then (s, [])
    else
      var i := |script| - 1;
      var (s1, done) := Turns(cfg, s, script[..i]);
      SoundTurns(cfg, s, script[..i]);
      var (s2, rec) := TurnOf(cfg, s1, script[i]);
      (s2, done + rec)
  }

  lemma {:induction false} SoundTurns(cfg: Config, s: State, script: seq<Turn>)
    requires Sound(s)
    ensures Sound(Turns(cfg, s, script).0)
    decreases |script|, 1
  {
    hide Sound, TurnOf;
    if script != [] {
      SoundTurns(cfg, s, script[..|script| - 1]);
      SoundTurn(cfg, Turns(cfg, s, script[..|script| - 1]).0, script[|script| - 1]);
    }
  }

  // ---------- what a turn does to the files ----------

  /** A turn that finds nothing to deliver resets both cursors. If anything was
      acknowledged, the log file is emptied and the checkpoint reads zero. */
  lemma CaughtUpEmpties(cfg: Config, s: State, t: Turn)
    requires Sound(s) && Next(s).1.None?
    ensures var (z, done) := TurnOf(cfg, s, t);
            && z.w == z.r == 0 && done == []
            && (if s.r != 0 then z.log == [] && ReadCkpt(z.ckpt) == 0 else z.log == s.log && z.ckpt == s.ckpt)
  {
    hide PersistCkpt, ReadCkpt, ReadFrame;
    CkptRoundTrip(0);
    assert s.log[..0] == [];
  }

  /** An acknowledged record is behind the read cursor and the checkpoint. If the sync
      interval has elapsed, the file is emptied when nothing is left to deliver; a live tail
      past the threshold is framed anew at its start, and any other is left alone. */
  lemma AckedTurn(cfg: Config, s: State, t: Turn)
    requires Sound(s) && Next(s).1.Some? && t.ack
    ensures var (z, done) := TurnOf(cfg, s, t);
            var read := Next(s).1.value;
            && done == [read.rec]
            && (if t.elapsed && read.next == s.w then z.log == [] && z.w == z.r == 0 && ReadCkpt(z.ckpt) == 0
                else if t.elapsed && read.next >= cfg.compactThreshold && s.w - read.next < TWO_32 then
                  z.log == Frame(s.log[read.next..s.w])[..z.w] && z.w == s.w - read.next && z.r == ReadCkpt(z.ckpt) == 0
                else z.log == s.log && z.w == s.w && z.r == read.next && ReadCkpt(z.ckpt) == read.next)
  {
    hide PersistCkpt, ReadCkpt, ReadFrame, Frame, Compacted;
    SoundNext(s);
    var u := Committed(s, Next(s).1.value.next);
    CompactedIs(cfg, u);
    CkptRoundTrip(0);
    CkptRoundTrip(Next(s).1.value.next);
    assert s.log[..0] == [];
  }

  lemma CompactedIs(cfg: Config, s: State)
    requires Ordered(s) && s.r > 0
    ensures Compacted(cfg, s)
            == (if s.r == s.w then Some(State([], PersistCkpt(0), 0, 0))
                else if s.r < cfg.compactThreshold then Some(s)
                else if s.w - s.r < TWO_32 then
                  Some(State(Frame(s.log[s.r..s.w])[..s.w - s.r], PersistCkpt(0), s.w - s.r, 0))
                else None)
  {
    hide Frame, PersistCkpt;
    assert s.log[..0] == [];
    if !Skips(cfg, s) && 0 < s.w - s.r < TWO_32 {
      CompactedLive(cfg, s);
    }
  }

  /** A refused send changes nothing. */
  lemma RefusedTurn(cfg: Config, s: State, t: Turn)
    requires Sound(s) && Next(s).1.Some? && !t.ack
    ensures TurnOf(cfg, s, t) == (s, [])
  {
    SoundNext(s);
  }

  /** An append is accepted exactly when its lengths fit their fields and its frame fits
      under the cap behind what is pending; it then lies at the end of the log. */
  lemma AppendedIff(cfg: Config, s: State, rec: Rec)
    requires Ordered(s)
    ensures var size := 14 + |rec.topic| + |rec.key| + |rec.payload|;
            var r := Appended(cfg, s, rec);
            && (r.Some? <==> |rec.topic| < 0x1_0000 && |rec.key| < 0x1_0000_0000 && size - 8 < 0x1_0000_0000
                             && s.w + size <= cfg.maxBytes)
            && (r.Some? ==>
                  && r.value.w == s.w + size && r.value.r == s.r && r.value.ckpt == s.ckpt
                  && EncodeBody(rec).Some? && |Frame(EncodeBody(rec).value)| == size
                  && r.value.log == s.log[..s.w] + Frame(EncodeBody(rec).value)
                                    + if s.w + size < |s.log| then s.log[s.w + size..] else [])
  {
    hide Le, Crc.Crc32, Crc.LittleEndian;
  }

  /** After a turn that finds nothing to deliver, an append is accepted exactly when it
      could be accepted by an empty log: what was acknowledged takes no room. */
  lemma RoomAgain(cfg: Config, s: State, t: Turn, rec: Rec)
    requires Sound(s) && Next(s).1.None?
    ensures var z := TurnOf(cfg, s, t).0;
            z.w == 0 <= |z.log| && (Appended(cfg, z, rec).Some? <==> Appended(cfg, State([], [], 0, 0), rec).Some?)
  {
    hide TurnOf, EncodeBody, Frame;
    CaughtUpEmpties(cfg, s, t);
  }

  // ---------- the waits ----------

  function Pow2(n: nat): nat {
    if n == 0 then 1 else 2 * Pow2(n - 1)
  }

  /** The sends refused since the last acknowledged one; idle turns do not count. */
  ghost function Refusals(cfg: Config, s: State, script: seq<Turn>): nat
    requires Sound(s)
    decreases |script|
  {
    if script == [] then 0
    else
      var i := |script| - 1;
      if Finds(cfg, s, script[..i]) then if script[i].ack then 0 else 1 + Refusals(cfg, s, script[..i])
      else Refusals(cfg, s, script[..i])
  }

  /** Whether the turn after these finds a record to deliver. */
  ghost predicate Finds(cfg: Config, s: State, script: seq<Turn>)
    requires Sound(s)
  {
    Next(Turns(cfg, s, script).0).1.Some?
  }

  /** The base, doubled for every refusal and capped. */
  function WaitAfter(base: nat, max: nat, refusals: nat): nat {
    if refusals == 0 then base else Min(base * Pow2(refusals), max)
  }

  lemma WaitDoubles(base: nat, max: nat, refusals: nat)
    ensures WaitAfter(base, max, refusals + 1) == Min(WaitAfter(base, max, refusals) * 2, max)
  {
    assert base * Pow2(refusals + 1) == base * Pow2(refusals) * 2;
  }

  /** How long the loop waits at each refused send, in turn. */
  ghost function Waits(cfg: Config, s: State, base: nat, max: nat, script: seq<Turn>): seq<nat>
    requires Sound(s)
    decreases |script|
  {
    if script == [] then []
    else
      var i := |script| - 1;
      Waits(cfg, s, base, max, script[..i])
      + if Finds(cfg, s, script[..i]) && !script[i].ack then [WaitAfter(base, max, Refusals(cfg, s, script[..i]))]
        else []
  }

  /** The drain loop, over a script of answers. A refused send is retried after a wait
      that doubles up to a cap, and an acknowledged one resets the wait. */
  method Drain(wal: Log, base: nat, max: nat, script: seq<Turn>)
    returns (delivered: seq<Rec>, waited: seq<nat>, backoff: nat)
    requires wal.Valid()
    modifies wal
    ensures wal.Valid() && (wal.Model(), delivered) == Turns(wal.cfg, old(wal.Model()), script)
    ensures waited == Waits(wal.cfg, old(wal.Model()), base, max, script)
    ensures backoff == WaitAfter(base, max, Refusals(wal.cfg, old(wal.Model()), script))
  {
    hide Sound, Next, Tidied, Committed, WaitAfter;
    delivered, waited, backoff := [], [], base;
    assert backoff == WaitAfter(base, max, 0) by { NoRefusal(base, max); }
    for i := 0 to |script|
      invariant wal.Valid() && (wal.Model(), delivered) == Turns(wal.cfg, old(wal.Model()), script[..i])
      invariant waited == Waits(wal.cfg, old(wal.Model()), base, max, script[..i])
      invariant backoff == WaitAfter(base, max, Refusals(wal.cfg, old(wal.Model()), script[..i]))
    {
      assert script[..i + 1][..i] == script[..i];
      var next := wal.Fetch();
      if next.None? {
        var _ := wal.MaybeCompact();
        assert delivered + [] == delivered && waited + [] == waited;
        continue;
      }
      if script[i].ack {
        wal.Commit(next.value.next);
        if script[i].elapsed {
          var _ := wal.MaybeCompact();
        }
        delivered := delivered + [next.value.rec];
        assert waited + [] == waited;
        backoff := base;
        NoRefusal(base, max);
      } else {
        waited := waited + [backoff];
        WaitDoubles(base, max, Refusals(wal.cfg, old(wal.Model()), script[..i]));
        backoff := Min(backoff * 2, max);
        assert delivered + [] == delivered;
      }
    }
    assert script[..|script|] == script;
  }

  lemma NoRefusal(base: nat, max: nat)
    ensures WaitAfter(base, max, 0) == base
  {
  }

  // ---------- the loop is a run ----------

  /** No turn compacts while a record is still pending. */
  ghost predicate SafeTurns(cfg: Config, s: State, script: seq<Turn>)
    requires Sound(s)
    decreases |script|
  {
    script == [] ||
      var i := |script| - 1;
      SoundTurns(cfg, s, script[..i]);
      SafeTurns(cfg, s, script[..i]) && SafeTurn(cfg, Turns(cfg, s, script[..i]).0, script[i])
  }

  ghost predicate SafeTurn(cfg: Config, s: State, t: Turn)
    requires Sound(s)
  {
    match Next(s).1
    case None => true
    case Some(read) =>
      SoundCommit(s);
      var s2 := Committed(s, read.next);
      t.ack && t.elapsed && Next(s2).1.Some? ==> KeepsTail(cfg, s2)
  }

  lemma InvSound(y: Sys)
    requires Inv(y)
    ensures Sound(y.s)
  {
    hide Frames, Storable, FrameOf, ReadCkpt, ReadFrame;
    var p := Pending(y);
    if y.s.w < |y.s.log| {
      assert Holds(y.s, p);
    }
  }

  /** The steps a turn of the loop takes. */
  function EventsOf(t: Turn, found: bool): seq<Event> {
    if !found then [Event.Fetch, Park]
    else if t.ack then [Event.Fetch, Ack, Event.Commit(t.elapsed)]
    else [Event.Fetch, Nack]
  }

  /** A turn that does not compact a live tail is a safe run of these steps. */
  lemma TurnIsRun(cfg: Config, y: Sys, t: Turn)
    requires Inv(y) && y.pc.Ready?
    requires (InvSound(y); SafeTurn(cfg, y.s, t))
    ensures (InvSound(y);
             var (s, rec) := TurnOf(cfg, y.s, t);
             var es := EventsOf(t, Next(y.s).1.Some?);
             SafeRun(cfg, y, es) && Run(cfg, y, es) == Sys(s, Ready, y.accepted, y.acked + rec))
  {
    hide Inv, Sound, Tidied, Committed, Next, OnDisk, Safe, SafeTurn;
    InvOnDisk(y);
    InvSound(y);
    SoundNext(y.s);
    CanFetch(cfg, y);
    StepKeeps(cfg, y, Event.Fetch);
    var y1 := Step(cfg, y, Event.Fetch);
    InvOnDisk(y1);
    assert y.acked + [] == y.acked;
    if y1.pc.Idle? {
      FetchedNone(y.s);
      CanPark(cfg, y1);
      TwoSteps(cfg, y, Event.Fetch, Park);
    } else if t.ack {
      CanAck(cfg, y1);
      StepKeeps(cfg, y1, Ack);
      InvOnDisk(Step(cfg, y1, Ack));
      TurnIsSafe(cfg, y, t);
      TwoSteps(cfg, y1, Ack, Event.Commit(t.elapsed));
      Unroll(cfg, y, Event.Fetch, [Ack, Event.Commit(t.elapsed)]);
      assert [Event.Fetch] + [Ack, Event.Commit(t.elapsed)] == EventsOf(t, true);
    } else {
      CanNack(cfg, y1);
      TwoSteps(cfg, y, Event.Fetch, Nack);
    }
  }

  lemma TwoSteps(cfg: Config, y: Sys, a: Event, b: Event)
    requires Placed(y) && WfHistory(y) && Enabled(y, a) && Safe(cfg, y, a)
    requires var z := Step(cfg, y, a); Placed(z) && WfHistory(z) && Enabled(z, b) && Safe(cfg, z, b)
    ensures SafeRun(cfg, y, [a, b]) && Run(cfg, y, [a, b]) == Step(cfg, Step(cfg, y, a), b)
  {
    hide Step, Safe, Enabled, Placed, WfHistory;
    var z := Step(cfg, y, a);
    Unroll(cfg, z, b, []);
    Unroll(cfg, y, a, [b]);
    assert [b] + [] == [b] && [a] + [b] == [a, b];
  }

  lemma TurnIsFifo(cfg: Config, y: Sys, t: Turn)
    requires Inv(y) && y.pc.Ready?
    requires (InvSound(y); SafeTurn(cfg, y.s, t))
    ensures (InvSound(y);
             var (s, rec) := TurnOf(cfg, y.s, t);
             Inv(Sys(s, Ready, y.accepted, y.acked + rec)))
  {
    hide Inv, Sound, TurnOf, SafeTurn, Next, SafeRun, Run;
    InvSound(y);
    TurnIsRun(cfg, y, t);
    RunDelivers(cfg, y, EventsOf(t, Next(y.s).1.Some?));
  }

  lemma CanPark(cfg: Config, y: Sys)
    requires Placed(y) && WfHistory(y) && y.pc.Idle? && y.s.r == y.s.w
    ensures Enabled(y, Park) && Safe(cfg, y, Park)
  {
  }

  lemma CanNack(cfg: Config, y: Sys)
    requires Placed(y) && WfHistory(y) && y.pc.Sending?
    ensures Enabled(y, Nack) && Safe(cfg, y, Nack)
  {
  }

  lemma TurnIsSafe(cfg: Config, y: Sys, t: Turn)
    requires Inv(y) && Sound(y.s) && Next(y.s).1.Some? && SafeTurn(cfg, y.s, t) && t.ack
    ensures var y2 := Sys(y.s, Sent(Next(y.s).1.value.rec, Next(y.s).1.value.next), y.accepted, y.acked);
            Placed(y2) && Safe(cfg, y2, Event.Commit(t.elapsed))
  {
    hide Inv, Sound, Compacted, Next, OnDisk, FrameOf, KeepsTail;
    InvOnDisk(y);
    SoundNext(y.s);
    NextIsPending(y);
  }

  /** With a second record pending, the one after the commit reads. */
  lemma NextIsPending(y: Sys)
    requires Inv(y) && Next(y.s).1.Some?
    ensures var p := Pending(y);
            && p != []
            && Next(y.s) == (y.s, Some(Read(p[0], y.s.r + |FrameOf(p[0])|)))
            && (|p| > 1 ==> Next(Committed(y.s, y.s.r + |FrameOf(p[0])|)).1.Some?)
  {
    hide OnDisk, Next, Frames, FrameOf, Storable, PersistCkpt;
    var p := Pending(y);
    if p == [] {
      NextEnds(y.s);
    }
    NextReads(y.s, p);
    CommitKeeps(y.s, p);
    if |p| > 1 {
      NextReads(Committed(y.s, y.s.r + |FrameOf(p[0])|), p[1..]);
    }
  }

  lemma FetchedNone(s: State)
    requires Next(s).1.None? && s.r <= s.w
    ensures Next(s).0.r == Next(s).0.w
  {
  }

  /** Whatever the broker answers, the drain loop delivers the accepted records in
      order, each one committed once, and leaves the rest replayable. */
  lemma {:induction false} DrainIsFifo(cfg: Config, y: Sys, script: seq<Turn>)
    requires Inv(y) && y.pc.Ready?
    requires (InvSound(y); SafeTurns(cfg, y.s, script))
    ensures (InvSound(y);
             var (s, delivered) := Turns(cfg, y.s, script);
             Inv(Sys(s, Ready, y.accepted, y.acked + delivered)) && Prefix(y.acked + delivered, y.accepted))
    decreases |script|
  {
    hide Inv, Sound, TurnOf, SafeTurn;
    if script == [] {
      assert y.acked + [] == y.acked;
      assert Sys(y.s, Ready, y.accepted, y.acked) == y;
      InvHistory(y);
    } else {
      var i := |script| - 1;
      InvSound(y);
      DrainIsFifo(cfg, y, script[..i]);
      var (s1, done) := Turns(cfg, y.s, script[..i]);
      SoundTurns(cfg, y.s, script[..i]);
      var y1 := Sys(s1, Ready, y.accepted, y.acked + done);
      TurnIsFifo(cfg, y1, script[i]);
      var (s2, rec) := TurnOf(cfg, s1, script[i]);
      assert (y.acked + done) + rec == y.acked + (done + rec);
      InvHistory(Sys(s2, Ready, y.accepted, y.acked + (done + rec)));
    }
  }
}
