/**
 The DNS cache of the network client, shared by any number of resolvers.

 A resolver reads the cache under a read lock, looks the name up with no lock held, and writes
 under a write lock; other resolvers may act in between.  The steps between the locks are the
 events of a run, in the order in which the locks are taken.
 */
module DnsCache {
  import opened Wrappers

  /** Clock readings and durations, in nanoseconds. */
  type Time = nat
  type Addr = string

  /** Names a resolver, which resolves one name at a time. */
  type Pid = nat

  datatype Entry = Entry(addrs: seq<Addr>, expiresAt: Time)

  type Cache = map<string, Entry>

  // ----- the two locked steps -----

  /** The read step: an entry that has not expired is a hit. */
  function Lookup(cache: Cache, host: string, now: Time): Option<seq<Addr>> {
    if host in cache && cache[host].expiresAt > now then Some(cache[host].addrs) else None
  }

  function Expired(cache: Cache, now: Time): set<string> {
    set k | k in cache && cache[k].expiresAt < now
  }

  /** The write step: a full cache drops what has expired, and only that, before it grows. */
  function Store(cache: Cache, ttl: Time, maxSize: nat, host: string, addrs: seq<Addr>, evictAt: Time, insertAt: Time): Cache {
    var kept := if |cache| >= maxSize then cache - Expired(cache, evictAt) else cache;
    kept[host := Entry(addrs, insertAt + ttl)]
  }

  class CachedDnsResolver {
    var cache: Cache
    const ttl: Time
    const maxSize: nat

    constructor (ttl: Time, maxSize: nat)
      ensures cache == map[] && this.ttl == ttl && this.maxSize == maxSize
    {
      cache := map[];
      this.ttl := ttl;
      this.maxSize := maxSize;
    }

    method ReadStep(host: string, now: Time) returns (hit: Option<seq<Addr>>)
      ensures hit == Lookup(cache, host, now)
      ensures hit.Some? <==> host in cache && cache[host].expiresAt > now
      ensures hit.Some? ==> hit.value == cache[host].addrs
    {
      if host in cache {
        var entry := cache[host];
        if entry.expiresAt > now {
          return Some(entry.addrs);
        }
      }
      hit := None;
    }

    /** Removes the expired keys one by one, in any order, and inserts the answer. */
    method WriteStep(host: string, addrs: seq<Addr>, evictAt: Time, insertAt: Time)
      modifies this
      ensures cache == Store(old(cache), ttl, maxSize, host, addrs, evictAt, insertAt)
      ensures forall k :: k in cache <==>
                k == host || (k in old(cache) && (|old(cache)| < maxSize || old(cache)[k].expiresAt >= evictAt))
      ensures forall k :: k in cache ==> cache[k] == if k == host then Entry(addrs, insertAt + ttl) else old(cache)[k]
    {
      if |cache| >= maxSize {
        var expired := Expired(cache, evictAt);
        ghost var gone := {};
        while expired != {}
          invariant gone + expired == Expired(old(cache), evictAt)
          invariant cache == old(cache) - gone
          decreases expired
        {
          var key :| key in expired;
          cache := cache - {key};
          expired := expired - {key};
          gone := gone + {key};
        }
      }
      cache := cache[host := Entry(addrs, insertAt + ttl)];
    }

    method ClearCache()
      modifies this
      ensures cache == map[]
    {
      cache := map[];
    }
  }

  // ----- interleaved resolvers -----

  datatype Phase = Looking(host: string) | Writing(host: string, addrs: seq<Addr>)

  datatype Event =
    | Begin(pid: Pid, host: string, now: Time)
    | Found(pid: Pid, addrs: seq<Addr>)
    | Failed(pid: Pid)
    | Write(pid: Pid, evictAt: Time, insertAt: Time)
    | Clear

  datatype System = System(cache: Cache, busy: map<Pid, Phase>)

  /**
   One step.  A resolver that begins again has dropped what it was waiting for; an event that does
   not fit the phase of its resolver changes nothing.
   */
  function Step(s: System, ttl: Time, maxSize: nat, e: Event): System {
    match e
    case Begin(pid, host, now) =>
      if Lookup(s.cache, host, now).Some? then s.(busy := s.busy - {pid})
      else s.(busy := s.busy[pid := Looking(host)])
    case Found(pid, addrs) =>
      if pid !in s.busy || !s.busy[pid].Looking? then s
      else if addrs == [] then s.(busy := s.busy - {pid})
      else s.(busy := s.busy[pid := Writing(s.busy[pid].host, addrs)])
    case Failed(pid) =>
      if pid !in s.busy || !s.busy[pid].Looking? then s else s.(busy := s.busy - {pid})
    case Write(pid, evictAt, insertAt) =>
      if pid !in s.busy || !s.busy[pid].Writing? then s
      else
        var p := s.busy[pid];
        System(Store(s.cache, ttl, maxSize, p.host, p.addrs, evictAt, insertAt), s.busy - {pid})
    case Clear => s.(cache := map[])
  }

  function Run(ttl: Time, maxSize: nat, events: seq<Event>): System {
    if events == [] then System(map[], map[])
    else Step(Run(ttl, maxSize, events[..|events| - 1]), ttl, maxSize, events[|events| - 1])
  }

  /** Clock readings never run backwards along a run, and none is later than `now`. */
  ghost predicate Timely(events: seq<Event>, now: Time)
    decreases |events|
  {
    events == []
    || (var front, e := events[..|events| - 1], events[|events| - 1];
        match e
        case Begin(_, _, t) => t <= now && Timely(front, t)
        case Write(_, evictAt, insertAt) => evictAt <= insertAt <= now && Timely(front, evictAt)
        case _ => Timely(front, now))
  }

  // ----- the latest answer -----

  datatype Stored = Stored(addrs: seq<Addr>, at: Time)

  /** The last answer written for a host since the cache was last cleared. */
  function Latest(ttl: Time, maxSize: nat, events: seq<Event>, host: string): Option<Stored> {
    if events == [] then None
    else
      var n := |events| - 1;
      var s, e := Run(ttl, maxSize, events[..n]), events[n];
      if e.Clear? then None
      else if e.Write? && e.pid in s.busy && s.busy[e.pid].Writing? && s.busy[e.pid].host == host then
        Some(Stored(s.busy[e.pid].addrs, e.insertAt))
      else Latest(ttl, maxSize, events[..n], host)
  }

  /** The latest answer is served while it is fresh. */
  function Serve(ttl: Time, latest: Option<Stored>, now: Time): Option<seq<Addr>> {
    if latest.Some? && latest.value.at + ttl > now then Some(latest.value.addrs) else None
  }

  /** What the cache holds for a host: the latest answer, unless that has expired and was dropped. */
  ghost predicate Holds(cache: Cache, host: string, ttl: Time, latest: Option<Stored>, now: Time) {
    if host in cache then latest.Some? && cache[host] == Entry(latest.value.addrs, latest.value.at + ttl)
    else latest.None? || latest.value.at + ttl < now
  }

  lemma StoreHolds(
      cache: Cache, ttl: Time, maxSize: nat, written: string, addrs: seq<Addr>, evictAt: Time, insertAt: Time,
      host: string, latest: Option<Stored>, now: Time)
    requires evictAt <= insertAt <= now && Holds(cache, host, ttl, latest, evictAt)
    ensures Holds(
              Store(cache, ttl, maxSize, written, addrs, evictAt, insertAt), host, ttl,
              if host == written then Some(Stored(addrs, insertAt)) else latest, now)
  {
  }

  lemma {:induction false} CacheHoldsLatest(ttl: Time, maxSize: nat, events: seq<Event>, host: string, now: Time)
    requires Timely(events, now)
    ensures Holds(Run(ttl, maxSize, events).cache, host, ttl, Latest(ttl, maxSize, events, host), now)
    decreases |events|
  {
    hide Store;
    if events != [] {
      var n := |events| - 1;
      var front, e := events[..n], events[n];
      var s := Run(ttl, maxSize, front);
      match e
      case Begin(_, _, t) => CacheHoldsLatest(ttl, maxSize, front, host, t);
      case Write(pid, evictAt, insertAt) =>
        CacheHoldsLatest(ttl, maxSize, front, host, evictAt);
        if pid in s.busy && s.busy[pid].Writing? {
          StoreHolds(s.cache, ttl, maxSize, s.busy[pid].host, s.busy[pid].addrs, evictAt, insertAt,
                     host, Latest(ttl, maxSize, front, host), now);
        }
      case Found(_, _) => CacheHoldsLatest(ttl, maxSize, front, host, now);
      case Failed(_) => CacheHoldsLatest(ttl, maxSize, front, host, now);
      case Clear =>
    }
  }

  /** A hit is the latest answer while it is fresh, whatever was evicted. */
  lemma ServesLatest(ttl: Time, maxSize: nat, events: seq<Event>, host: string, now: Time)
    requires Timely(events, now)
    ensures Lookup(Run(ttl, maxSize, events).cache, host, now)
         == Serve(ttl, Latest(ttl, maxSize, events, host), now)
  {
    CacheHoldsLatest(ttl, maxSize, events, host, now);
  }

  // ----- two caches side by side -----

  /** Caches of any two sizes keep every resolver in the same phase and write the same answers. */
  lemma {:induction false} RunsAlike(ttl: Time, size: nat, other: nat, events: seq<Event>, now: Time)
    requires Timely(events, now)
    ensures Run(ttl, size, events).busy == Run(ttl, other, events).busy
    ensures forall host :: Latest(ttl, size, events, host) == Latest(ttl, other, events, host)
    decreases |events|
  {
    hide Lookup, Store, Serve;
    if events != [] {
      var front, e := events[..|events| - 1], events[|events| - 1];
      var before := match e case Begin(_, _, t) => t case Write(_, evictAt, _) => evictAt case _ => now;
      RunsAlike(ttl, size, other, front, before);
      if e.Begin? {
        ServesLatest(ttl, size, front, e.host, e.now);
        ServesLatest(ttl, other, front, e.host, e.now);
      }
    }
  }

  /**
   The size of the cache, and with it every eviction, is unobservable: two caches of any sizes,
   driven by the same events, serve every host alike at every moment and keep every resolver alike.
   */
  lemma SizeUnobservable(ttl: Time, size: nat, other: nat, events: seq<Event>, host: string, now: Time)
    requires Timely(events, now)
    ensures Lookup(Run(ttl, size, events).cache, host, now) == Lookup(Run(ttl, other, events).cache, host, now)
    ensures Run(ttl, size, events).busy == Run(ttl, other, events).busy
  {
    RunsAlike(ttl, size, other, events, now);
    ServesLatest(ttl, size, events, host, now);
    ServesLatest(ttl, other, events, host, now);
  }

  /** A cache with room for every event evicts nothing: it holds the latest answer for every host, expired or not. */
  lemma {:induction false} RoomyCacheKeepsAll(ttl: Time, maxSize: nat, events: seq<Event>, host: string)
    requires |events| <= maxSize
    ensures var cache, latest := Run(ttl, maxSize, events).cache, Latest(ttl, maxSize, events, host);
            && |cache| <= |events|
            && (host in cache <==> latest.Some?)
            && (host in cache ==> cache[host] == Entry(latest.value.addrs, latest.value.at + ttl))
    decreases |events|
  {
    hide Step, Store;
    if events != [] {
      var front, e := events[..|events| - 1], events[|events| - 1];
      RoomyCacheKeepsAll(ttl, maxSize, front, host);
      var s := Run(ttl, maxSize, front);
      StepCache(s, ttl, maxSize, e);
      if e.Write? && e.pid in s.busy && s.busy[e.pid].Writing? {
        StoreWithRoom(s.cache, ttl, maxSize, s.busy[e.pid].host, s.busy[e.pid].addrs, e.evictAt, e.insertAt);
      }
    }
  }

  /** Only writes and clearing touch the cache. */
  lemma StepCache(s: System, ttl: Time, maxSize: nat, e: Event)
    ensures Step(s, ttl, maxSize, e).cache ==
              if e.Clear? then map[]
              else if e.Write? && e.pid in s.busy && s.busy[e.pid].Writing? then
                Store(s.cache, ttl, maxSize, s.busy[e.pid].host, s.busy[e.pid].addrs, e.evictAt, e.insertAt)
              else s.cache
  {
    hide Store, Lookup;
  }

  lemma StoreWithRoom(cache: Cache, ttl: Time, maxSize: nat, host: string, addrs: seq<Addr>, evictAt: Time, insertAt: Time)
    requires |cache| < maxSize
    ensures var after := Store(cache, ttl, maxSize, host, addrs, evictAt, insertAt);
            after == cache[host := Entry(addrs, insertAt + ttl)] && |after| <= |cache| + 1
  {
    var after := cache[host := Entry(addrs, insertAt + ttl)];
    assert after.Keys == cache.Keys + {host};
    assert |after| == |after.Keys| && |cache| == |cache.Keys|;
  }

  // ----- where answers come from -----

  /** The host a resolver asked for last. */
  function LastAsked(events: seq<Event>, pid: Pid): Option<string> {
    if events == [] then None
    else
      var e := events[|events| - 1];
      if e.Begin? && e.pid == pid then Some(e.host) else LastAsked(events[..|events| - 1], pid)
  }

  /** Some resolver's own lookup brought these addresses, and this was the host it had asked for. */
  ghost predicate LookedUp(events: seq<Event>, host: string, addrs: seq<Addr>) {
    exists pid: Pid, j: nat ::
      j < |events| && events[j] == Found(pid, addrs) && LastAsked(events[..j], pid) == Some(host)
  }

  lemma LookedUpLonger(events: seq<Event>, e: Event, host: string, addrs: seq<Addr>)
    requires LookedUp(events, host, addrs)
    ensures LookedUp(events + [e], host, addrs)
  {
    hide LastAsked;
    var pid: Pid, j: nat :|
      j < |events| && events[j] == Found(pid, addrs) && LastAsked(events[..j], pid) == Some(host);
    var all := events + [e];
    assert all[j] == Found(pid, addrs) && all[..j] == events[..j];
  }

  lemma LookedUpNow(events: seq<Event>, pid: Pid, host: string, addrs: seq<Addr>)
    requires LastAsked(events, pid) == Some(host)
    ensures LookedUp(events + [Found(pid, addrs)], host, addrs)
  {
    hide LastAsked;
    var all := events + [Found(pid, addrs)];
    assert all[|events|] == Found(pid, addrs) && all[..|events|] == events;
  }

  /** A resolver is busy with the host it asked for last, or about to write what a lookup of that host brought. */
  ghost predicate PhaseSound(events: seq<Event>, pid: Pid, p: Phase) {
    match p
    case Looking(host) => LastAsked(events, pid) == Some(host)
    case Writing(host, addrs) => addrs != [] && LookedUp(events, host, addrs)
  }

  lemma {:induction false} BusySound(ttl: Time, maxSize: nat, events: seq<Event>, pid: Pid)
    ensures var busy := Run(ttl, maxSize, events).busy;
            pid in busy ==> PhaseSound(events, pid, busy[pid])
    decreases |events|
  {
    hide Store, Lookup, LookedUp;
    if events != [] {
      var n := |events| - 1;
      var front, e := events[..n], events[n];
      var before, after := Run(ttl, maxSize, front).busy, Run(ttl, maxSize, events).busy;
      assert events == front + [e];
      BusySound(ttl, maxSize, front, pid);
      if pid in after && !(e.Begin? && e.pid == pid) {
        if before[pid] != after[pid] {
          LookedUpNow(front, pid, before[pid].host, e.addrs);
        } else if before[pid].Writing? {
          LookedUpLonger(front, e, before[pid].host, before[pid].addrs);
        }
      }
    }
  }

  lemma {:induction false} LatestSound(ttl: Time, maxSize: nat, events: seq<Event>, host: string)
    requires Latest(ttl, maxSize, events, host).Some?
    ensures var addrs := Latest(ttl, maxSize, events, host).value.addrs;
            addrs != [] && LookedUp(events, host, addrs)
    decreases |events|
  {
    hide LookedUp, Step;
    var n := |events| - 1;
    var front, e := events[..n], events[n];
    var addrs := Latest(ttl, maxSize, events, host).value.addrs;
    assert events == front + [e];
    if e.Write? {
      BusySound(ttl, maxSize, front, e.pid);
    }
    if Latest(ttl, maxSize, front, host) == Latest(ttl, maxSize, events, host) {
      LatestSound(ttl, maxSize, front, host);
    }
    LookedUpLonger(front, e, host, addrs);
  }

  /**
   A cached answer is never empty, was written less than the time to live ago, and was looked up for
   that very host.
   */
  lemma HitsAreSound(ttl: Time, maxSize: nat, events: seq<Event>, host: string, now: Time)
    requires Timely(events, now) && Lookup(Run(ttl, maxSize, events).cache, host, now).Some?
    ensures var addrs := Lookup(Run(ttl, maxSize, events).cache, host, now).value;
            && addrs != []
            && LookedUp(events, host, addrs)
            && Latest(ttl, maxSize, events, host).Some?
            && Latest(ttl, maxSize, events, host).value.at + ttl > now
  {
    ServesLatest(ttl, maxSize, events, host, now);
    LatestSound(ttl, maxSize, events, host);
  }

  // ----- what a resolver is doing -----

  /** A resolver that asks for a host begins to look it up unless the cache serves it. */
  predicate Misses(ttl: Time, maxSize: nat, events: seq<Event>, i: nat, pid: Pid, host: string)
    requires i < |events|
  {
    && events[i].Begin? && events[i].pid == pid && events[i].host == host
    && Lookup(Run(ttl, maxSize, events[..i]).cache, host, events[i].now) == None
  }

  /** Nothing ended the lookup that began at i: no new request and no answer. */
  predicate StillLooking(events: seq<Event>, i: nat, pid: Pid) {
    forall k :: i < k < |events| && !events[k].Write? && !events[k].Clear? ==> events[k].pid != pid
  }

  /** Nothing ended the wait for the write lock that began at j: no new request and no write. */
  predicate StillWriting(events: seq<Event>, j: nat, pid: Pid) {
    forall k :: j < k < |events| && (events[k].Begin? || events[k].Write?) ==> events[k].pid != pid
  }

  ghost predicate LooksUp(ttl: Time, maxSize: nat, events: seq<Event>, pid: Pid, host: string) {
    exists i: nat :: i < |events| && Misses(ttl, maxSize, events, i, pid, host) && StillLooking(events, i, pid)
  }

  ghost predicate Writes(ttl: Time, maxSize: nat, events: seq<Event>, pid: Pid, host: string, addrs: seq<Addr>) {
    exists j: nat :: j < |events| && events[j] == Found(pid, addrs) && addrs != []
      && LooksUp(ttl, maxSize, events[..j], pid, host) && StillWriting(events, j, pid)
  }

  lemma LooksUpSnoc(ttl: Time, maxSize: nat, front: seq<Event>, e: Event, pid: Pid, host: string)
    ensures LooksUp(ttl, maxSize, front + [e], pid, host) <==>
              if e.Begin? && e.pid == pid then
                e.host == host && Lookup(Run(ttl, maxSize, front).cache, host, e.now) == None
              else (e.Write? || e.Clear? || e.pid != pid) && LooksUp(ttl, maxSize, front, pid, host)
  {
    hide Run, Lookup;
    var all, n := front + [e], |front|;
    assert all[..n] == front && all[n] == e;
    forall i: nat | i < n
      ensures Misses(ttl, maxSize, all, i, pid, host) <==> Misses(ttl, maxSize, front, i, pid, host)
      ensures StillLooking(all, i, pid) <==> StillLooking(front, i, pid) && (e.Write? || e.Clear? || e.pid != pid)
    {
      assert all[..i] == front[..i];
      assert forall k :: i < k < n ==> all[k] == front[k];
    }
    assert StillLooking(all, n, pid);
    assert Misses(ttl, maxSize, all, n, pid, host) <==>
      e.Begin? && e.pid == pid && e.host == host && Lookup(Run(ttl, maxSize, front).cache, host, e.now) == None;
  }

  lemma WritesSnoc(
      ttl: Time, maxSize: nat, front: seq<Event>, e: Event, pid: Pid, host: string, addrs: seq<Addr>)
    ensures Writes(ttl, maxSize, front + [e], pid, host, addrs) <==>
              || (e == Found(pid, addrs) && addrs != [] && LooksUp(ttl, maxSize, front, pid, host))
              || (!((e.Begin? || e.Write?) && e.pid == pid) && Writes(ttl, maxSize, front, pid, host, addrs))
  {
    hide LooksUp;
    var all, n := front + [e], |front|;
    assert all[..n] == front && all[n] == e;
    forall j: nat | j < n
      ensures all[..j] == front[..j] && all[j] == front[j]
      ensures StillWriting(all, j, pid) <==> StillWriting(front, j, pid) && !((e.Begin? || e.Write?) && e.pid == pid)
    {
      assert forall k :: j < k < n ==> all[k] == front[k];
    }
    assert StillWriting(all, n, pid);
  }

  /**
   In every run: a resolver looks a host up exactly from a request that missed until the answer, and
   waits to write an answer exactly from a lookup that brought addresses until it has written them,
   if no request of its own came in between.
   */
  lemma {:induction false} PhasesExactly(ttl: Time, maxSize: nat, events: seq<Event>, pid: Pid)
    ensures var busy := Run(ttl, maxSize, events).busy;
            && (forall host ::
                  LooksUp(ttl, maxSize, events, pid, host) <==> pid in busy && busy[pid] == Looking(host))
            && (forall host, addrs ::
                  Writes(ttl, maxSize, events, pid, host, addrs) <==> pid in busy && busy[pid] == Writing(host, addrs))
  {
    hide Lookup, Store, LooksUp, Writes;
    if events == [] {
      NothingBegun(ttl, maxSize, pid);
    } else {
      var front, e := events[..|events| - 1], events[|events| - 1];
      assert events == front + [e];
      PhasesExactly(ttl, maxSize, front, pid);
      forall host
        ensures LooksUp(ttl, maxSize, events, pid, host) <==>
                  pid in Run(ttl, maxSize, events).busy && Run(ttl, maxSize, events).busy[pid] == Looking(host)
      {
        LooksUpSnoc(ttl, maxSize, front, e, pid, host);
      }
      forall host, addrs
        ensures Writes(ttl, maxSize, events, pid, host, addrs) <==>
                  pid in Run(ttl, maxSize, events).busy && Run(ttl, maxSize, events).busy[pid] == Writing(host, addrs)
      {
        WritesSnoc(ttl, maxSize, front, e, pid, host, addrs);
      }
    }
  }

  lemma NothingBegun(ttl: Time, maxSize: nat, pid: Pid)
    ensures forall host :: !LooksUp(ttl, maxSize, [], pid, host)
    ensures forall host, addrs :: !Writes(ttl, maxSize, [], pid, host, addrs)
    ensures Run(ttl, maxSize, []).busy == map[]
  {
  }

  // ----- size -----

  /** After a write the cache is within its size, or holds nothing that had expired but the new entry. */
  lemma SizeAfterStore(cache: Cache, ttl: Time, maxSize: nat, host: string, addrs: seq<Addr>, evictAt: Time, insertAt: Time)
    ensures var size := |Store(cache, ttl, maxSize, host, addrs, evictAt, insertAt)|;
            size <= maxSize || size <= |set k | k in cache && cache[k].expiresAt >= evictAt| + 1
  {
    var after := Store(cache, ttl, maxSize, host, addrs, evictAt, insertAt);
    var kept := if |cache| >= maxSize then cache - Expired(cache, evictAt) else cache;
    assert after.Keys == kept.Keys + {host};
    assert |after| == |after.Keys| && |kept| == |kept.Keys|;
    assert |kept.Keys + {host}| <= |kept.Keys| + 1;
    assert |cache| >= maxSize ==> kept.Keys == set k | k in cache && cache[k].expiresAt >= evictAt;
  }
}
