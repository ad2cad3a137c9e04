/**
  The cursor-affinity cache: a bounded map from cursor to cluster whose bindings expire.
  Every answer it gives is the one its whole history of pins and releases gives.
*/
module Affinity {
  import opened Bytes
  import opened Clock

  datatype Pinned = Pinned(cluster: bytes, pinnedAt: nat)

  datatype Event = Pin(id: bytes, pinned: Pinned) | Release(id: bytes)

  /** The binding the history leaves an id with, capacity and expiry aside. */
  function Latest(history: seq<Event>, id: bytes): Option<Pinned> {
    if history == [] then None
    else
      var e := history[|history| - 1];
      if e.id == id then (if e.Pin? then Some(e.pinned) else None)
      else Latest(history[..|history| - 1], id)
  }

  predicate Expired(ttl: nat, p: Pinned, now: nat) {
    Elapsed(now, p.pinnedAt) >= ttl
  }

  /** A binding lives for less than `ttl` ticks from its pin. */
  lemma YoungerThanTtl(ttl: nat, p: Pinned, now: nat)
    ensures !Expired(ttl, p, now) <==> 0 < ttl && now < p.pinnedAt + ttl
  {
  }

  function Later(a: nat, b: nat): nat {
    if a <= b then b else a
  }

  lemma StaysExpired(ttl: nat, p: Pinned, now: nat, later: nat)
    requires Expired(ttl, p, now) && now <= later
    ensures Expired(ttl, p, later)
  {
  }

  lemma LatestStep(history: seq<Event>, e: Event, id: bytes)
    ensures Latest(history + [e], id) ==
            if e.id != id then Latest(history, id) else if e.Pin? then Some(e.pinned) else None
  {
    assert (history + [e])[..|history|] == history;
  }

  /** What one id is bound to is its latest pin, unless that was evicted or has expired. */
  predicate Agrees(ttl: nat, history: seq<Event>, evicted: set<bytes>, entries: map<bytes, Pinned>, clock: nat,
                   id: bytes) {
    var latest := Latest(history, id);
    && (id in entries ==> latest == Some(entries[id]))
    && (id in evicted ==> id !in entries)
    && (latest.Some? && id !in entries ==> id in evicted || Expired(ttl, latest.value, clock))
  }

  /** The bindings that have not expired. */
  function Live(ttl: nat, entries: map<bytes, Pinned>, now: nat): (live: map<bytes, Pinned>)
    ensures forall k | k in entries :: k in live <==> 0 < ttl && now < entries[k].pinnedAt + ttl
    ensures forall k | k in live :: k in entries && live[k] == entries[k]
  {
    map k | k in entries && !Expired(ttl, entries[k], now) :: entries[k]
  }

  lemma PinAgrees(ttl: nat, history: seq<Event>, evicted: set<bytes>, entries: map<bytes, Pinned>, clock: nat,
                  victims: set<bytes>, id: bytes, p: Pinned, other: bytes)
    requires Agrees(ttl, history, evicted, entries, clock, other)
    ensures var live := Live(ttl, entries, p.pinnedAt);
            victims <= live.Keys ==>
              Agrees(ttl, history + [Pin(id, p)], evicted + victims - {id}, (live - victims)[id := p],
                     Later(clock, p.pinnedAt), other)
  {
    LatestStep(history, Pin(id, p), other);
    var latest := Latest(history, other);
    if latest.Some? && Expired(ttl, latest.value, clock) {
      StaysExpired(ttl, latest.value, clock, Later(clock, p.pinnedAt));
    }
    if latest.Some? && Expired(ttl, latest.value, p.pinnedAt) {
      StaysExpired(ttl, latest.value, p.pinnedAt, Later(clock, p.pinnedAt));
    }
  }

  lemma ReleaseAgrees(ttl: nat, history: seq<Event>, evicted: set<bytes>, entries: map<bytes, Pinned>, clock: nat,
                      id: bytes, other: bytes)
    requires Agrees(ttl, history, evicted, entries, clock, other)
    ensures Agrees(ttl, history + [Release(id)], evicted - {id}, entries - {id}, clock, other)
  {
    LatestStep(history, Release(id), other);
  }

  ghost predicate AllAgree(ttl: nat, history: seq<Event>, evicted: set<bytes>, entries: map<bytes, Pinned>,
                           clock: nat) {
    forall id :: Agrees(ttl, history, evicted, entries, clock, id)
  }

  /** The bindings left once a victim has made room. */
  function Spared(live: map<bytes, Pinned>, victim: Option<bytes>): map<bytes, Pinned> {
    if victim.Some? then live - {victim.value} else live
  }

  function Victims(victim: Option<bytes>): set<bytes> {
    if victim.Some? then {victim.value} else {}
  }

  lemma PinAllAgree(ttl: nat, history: seq<Event>, evicted: set<bytes>, entries: map<bytes, Pinned>, clock: nat,
                    victim: Option<bytes>, id: bytes, p: Pinned)
    requires AllAgree(ttl, history, evicted, entries, clock)
    requires victim.Some? ==> victim.value in Live(ttl, entries, p.pinnedAt)
    ensures AllAgree(ttl, history + [Pin(id, p)], evicted + Victims(victim) - {id},
                     Spared(Live(ttl, entries, p.pinnedAt), victim)[id := p], Later(clock, p.pinnedAt))
  {
    hide Agrees, Live;
    var live := Live(ttl, entries, p.pinnedAt);
    assert Spared(live, victim) == live - Victims(victim);
    var h, gone, left := history + [Pin(id, p)], evicted + Victims(victim) - {id}, (live - Victims(victim))[id := p];
    forall other: bytes
      ensures Agrees(ttl, h, gone, left, Later(clock, p.pinnedAt), other)
    {
      PinAgrees(ttl, history, evicted, entries, clock, Victims(victim), id, p, other);
    }
  }

  lemma ReleaseAllAgree(ttl: nat, history: seq<Event>, evicted: set<bytes>, entries: map<bytes, Pinned>, clock: nat,
                        id: bytes)
    requires AllAgree(ttl, history, evicted, entries, clock)
    ensures AllAgree(ttl, history + [Release(id)], evicted - {id}, entries - {id}, clock)
  {
    hide Agrees;
    var h, gone, left := history + [Release(id)], evicted - {id}, entries - {id};
    forall other: bytes
      ensures Agrees(ttl, h, gone, left, clock, other)
    {
      ReleaseAgrees(ttl, history, evicted, entries, clock, id, other);
    }
  }

  class CursorAffinity {
    const ttl: nat
    const capacity: nat
    var entries: map<bytes, Pinned>
    ghost var history: seq<Event>
    ghost var evicted: set<bytes>
    /** The latest time any pin has used. Callers read the clock before they take the
        lock, so a call may come with an earlier one. */
    ghost var clock: nat

    ghost predicate Valid()
      reads this
    {
      capacity >= 1 && |entries| <= capacity && AllAgree(ttl, history, evicted, entries, clock)
    }

    constructor (ttl: nat, capacity: nat)
      ensures Valid() && entries == map[] && history == [] && evicted == {} && clock == 0
      ensures this.ttl == ttl && this.capacity == if capacity < 1 then 1 else capacity
    {
      this.ttl := ttl;
      this.capacity := if capacity < 1 then 1 else capacity;
      entries := map[];
      history := [];
      evicted := {};
      clock := 0;
    }

    /** Drops every expired binding. */
    method Sweep(now: nat)
      modifies this`entries
      ensures entries == Live(ttl, old(entries), now)
      ensures |entries| <= |old(entries)|
    {
      var rest := entries.Keys;
      while rest != {}
        invariant rest <= entries.Keys <= old(entries).Keys
        invariant forall k | k in entries :: entries[k] == old(entries)[k]
        invariant forall k | k in old(entries) && k !in rest :: k in entries <==> !Expired(ttl, old(entries)[k], now)
        decreases rest
      {
        var k :| k in rest;
        if Expired(ttl, entries[k], now) {
          entries := entries - {k};
        }
        rest := rest - {k};
      }
      Fewer(entries, old(entries));
    }

    /** A binding pinned no later than any other. */
    method Oldest() returns (k: bytes)
      requires entries != map[]
      ensures k in entries && forall j | j in entries :: entries[k].pinnedAt <= entries[j].pinnedAt
    {
      k :| k in entries;
      var rest := entries.Keys - {k};
      while rest != {}
        invariant rest <= entries.Keys && k in entries
        invariant forall j | j in entries && j !in rest :: entries[k].pinnedAt <= entries[j].pinnedAt
        decreases rest
      {
        var j :| j in rest;
        if entries[j].pinnedAt < entries[k].pinnedAt {
          k := j;
        }
        rest := rest - {j};
      }
    }

    /** Drops the expired bindings; if the map is still full, one oldest binding too. */
    method MakeRoom(now: nat) returns (victim: Option<bytes>)
      requires capacity >= 1 && |entries| <= capacity
      modifies this`entries
      ensures var live := Live(ttl, old(entries), now);
              && (victim.Some? <==> |live| >= capacity)
              && (victim.Some? ==> victim.value in live
                                   && forall j | j in live :: live[victim.value].pinnedAt <= live[j].pinnedAt)
              && entries == Spared(live, victim)
      ensures |entries| < capacity
    {
      hide Live;
      victim := None;
      Sweep(now);
      if |entries| >= capacity {
        var oldest := Oldest();
        OneLess(entries, oldest);
        victim := Some(oldest);
        entries := entries - {oldest};
      }
    }

    /** Pins a cursor. The expired bindings go first; if the map is still full, one
        oldest binding, and no other, makes room. */
    method Pin(id: bytes, cluster: bytes, now: nat) returns (ghost victim: Option<bytes>)
      requires Valid()
      modifies this
      ensures Valid() && clock == Later(old(clock), now)
              && history == old(history) + [Event.Pin(id, Pinned(cluster, now))]
      ensures var live := Live(ttl, old(entries), now);
              && (victim.Some? <==> |live| >= capacity)
              && (victim.Some? ==> victim.value in live
                                   && forall j | j in live :: live[victim.value].pinnedAt <= live[j].pinnedAt)
              && entries == Spared(live, victim)[id := Pinned(cluster, now)]
      ensures evicted == old(evicted) + Victims(victim) - {id}
    {
      hide AllAgree, Live, Spared, Victims;
      victim := MakeRoom(now);
      PinAllAgree(ttl, history, evicted, old(entries), clock, victim, id, Pinned(cluster, now));
      OneMore(entries, id, Pinned(cluster, now));
      entries := entries[id := Pinned(cluster, now)];
      evicted := evicted + Victims(victim) - {id};
      history := history + [Event.Pin(id, Pinned(cluster, now))];
      clock := Later(clock, now);
    }

    /** The cluster a cursor is pinned to: exactly its latest pin, while that is younger
        than the TTL and has not been evicted. A call that read the clock before a pin
        whose sweep it follows may miss a binding which that sweep found expired, and is
        never given a stale one. */
    method Resolve(id: bytes, now: nat) returns (r: Option<bytes>)
      requires Valid()
      ensures var latest := Latest(history, id);
              && (r.Some? ==>
                    && latest.Some? && id !in evicted && 0 < ttl && now < latest.value.pinnedAt + ttl
                    && r.value == latest.value.cluster)
              && (latest.Some? && id !in evicted && 0 < ttl && now < latest.value.pinnedAt + ttl
                  && clock < latest.value.pinnedAt + ttl ==>
                    r == Some(latest.value.cluster))
    {
      if Latest(history, id).Some? {
        YoungerThanTtl(ttl, Latest(history, id).value, now);
        YoungerThanTtl(ttl, Latest(history, id).value, Later(clock, now));
      }
      assert Agrees(ttl, history, evicted, entries, clock, id);
      r := if id in entries && !Expired(ttl, entries[id], now) then Some(entries[id].cluster) else None;
      var latest := Latest(history, id);
      if latest.Some? && Expired(ttl, latest.value, clock) {
        StaysExpired(ttl, latest.value, clock, Later(clock, now));
      }
      if latest.Some? && Expired(ttl, latest.value, now) {
        StaysExpired(ttl, latest.value, now, Later(clock, now));
      }
    }

    method Release(id: bytes)
      requires Valid()
      modifies this
      ensures Valid() && clock == old(clock) && entries == old(entries) - {id}
      ensures history == old(history) + [Event.Release(id)] && evicted == old(evicted) - {id}
    {
      hide AllAgree;
      ReleaseAllAgree(ttl, history, evicted, entries, clock, id);
      Fewer(entries - {id}, entries);
      entries := entries - {id};
      evicted := evicted - {id};
      history := history + [Event.Release(id)];
    }
  }

  lemma Fewer(a: map<bytes, Pinned>, b: map<bytes, Pinned>)
    requires a.Keys <= b.Keys
    ensures |a| <= |b|
  {
    SubsetSize(a.Keys, b.Keys);
    assert |a| == |a.Keys| && |b| == |b.Keys|;
  }

  lemma SubsetSize(a: set<bytes>, b: set<bytes>)
    requires a <= b
    ensures |a| <= |b|
  {
    assert b == a + (b - a);
  }

  lemma OneLess(m: map<bytes, Pinned>, k: bytes)
    requires k in m
    ensures |m - {k}| == |m| - 1
  {
    assert (m - {k}).Keys == m.Keys - {k};
    assert |m| == |m.Keys| && |m - {k}| == |(m - {k}).Keys|;
  }

  lemma OneMore(m: map<bytes, Pinned>, k: bytes, p: Pinned)
    ensures |m[k := p]| <= |m| + 1
  {
    assert m[k := p].Keys == m.Keys + {k};
    assert |m| == |m.Keys| && |m[k := p]| == |m[k := p].Keys|;
  }
}
