/** Model of `probe.rs`: a cache from VM name to OS name, each entry stamped
    with the time it was stored, in front of the two agent queries. Time is an
    explicit natural number of nanoseconds on a monotonic clock; the cache is
    a value passed in and returned. */
module Probe {
  import opened Wrappers
  import opened Json
  import opened Virsh
  import opened Agent

  const NANOS_PER_SEC: nat := 1_000_000_000

  /** A cached OS name and the instant it was stored. */
  datatype Entry = Entry(value: string, at: nat)

  /** `ProbeManager`: the connection URI (kept but not passed to `virsh`), the
      per-query timeout in whole seconds, the cache lifetime and the cache. */
  datatype ProbeManager = ProbeManager(uri: string, timeoutSecs: nat, ttl: nat, cache: map<string, Entry>)

  /** The outcome of `get_os`, the manager with its cache afterwards, and the
      agent calls made. */
  datatype Probed = Probed(result: Result<Option<string>, Error>, manager: ProbeManager, calls: seq<Call>)

  /** `ProbeManager::new`: `Duration::as_secs` drops the fraction of a second;
      the cache starts empty. */
  function New(uri: string, timeout: nat, ttl: nat): (p: ProbeManager)
    ensures p.cache == map[] && p.uri == uri && p.ttl == ttl
    ensures p.timeoutSecs * NANOS_PER_SEC <= timeout < (p.timeoutSecs + 1) * NANOS_PER_SEC
  {
    ProbeManager(uri, timeout / NANOS_PER_SEC, ttl, map[])
  }

  /** `Instant::elapsed`: time since `at`, zero if `at` lies ahead. */
  function Elapsed(at: nat, now: nat): (d: nat)
    ensures at <= now ==> at + d == now
    ensures now < at ==> d == 0
  {
    if at <= now then now - at else 0
  }

  /** An entry may be served when it is strictly younger than the lifetime. */
  predicate IsFresh(e: Entry, ttl: nat, now: nat) {
    Elapsed(e.at, now) < ttl
  }

  /** `store_cache`: the entry for `vm` becomes `value` stamped `now`; every
      other entry stays as it was. */
  function StoreCache(p: ProbeManager, vm: string, value: string, now: nat): (q: ProbeManager)
    ensures q.uri == p.uri && q.timeoutSecs == p.timeoutSecs && q.ttl == p.ttl
    ensures q.cache.Keys == p.cache.Keys + {vm}
    ensures q.cache[vm] == Entry(value, now)
    ensures forall k :: k in p.cache && k != vm ==> q.cache[k] == p.cache[k]
  {
    p.(cache := p.cache[vm := Entry(value, now)])
  }

  /** The cached name for `vm`, when there is a fresh one. */
  function CachedAt(p: ProbeManager, vm: string, now: nat): Option<string> {
    if vm in p.cache && IsFresh(p.cache[vm], p.ttl, now) then Some(p.cache[vm].value) else None
  }

  /** `get_os` with the cache read at `now`: a fresh cached name is served
      without any query; otherwise `guest-get-osinfo`, then `guest-get-os`,
      each consulted only when the one before gave an error or nothing. The
      first name found is stored, stamped `stored`, the instant `store_cache`
      reads the clock once the queries are over; errors are swallowed. */
  function GetOs(p: ProbeManager, vm: string, now: nat, stored: nat, render: Json -> string, rs: seq<Reply>): (o: Probed)
    requires now <= stored
    ensures o.result.Ok?
    ensures o.manager.uri == p.uri && o.manager.timeoutSecs == p.timeoutSecs && o.manager.ttl == p.ttl
    ensures o.result.value.None? ==> o.manager == p
    ensures o.result.value.Some? && o.calls != [] ==> o.manager == StoreCache(p, vm, o.result.value.value, stored)
    ensures o.calls == [] <==> CachedAt(p, vm, now).Some?
    ensures |o.calls| <= 2
  {
    match CachedAt(p, vm, now)
    case Some(v) => Probed(Ok(Some(v)), p, [])
    case None =>
      var rich := TryGuestGetOsInfo(vm, p.timeoutSecs, render, rs);
      if rich.result.Ok? && rich.result.value.Some? then
        var s := rich.result.value.value;
        Probed(Ok(Some(s)), StoreCache(p, vm, s, stored), rich.calls)
      else
        var legacy := TryGuestGetOs(vm, p.timeoutSecs, After(rs, 1));
        if legacy.result.Ok? && legacy.result.value.Some? then
          var s := legacy.result.value.value;
          Probed(Ok(Some(s)), StoreCache(p, vm, s, stored), rich.calls + legacy.calls)
        else Probed(Ok(None), p, rich.calls + legacy.calls)
  }

  /** The name the newer query yields from the first reply, if any. */
  ghost function RichName(render: Json -> string, rs: seq<Reply>): Option<string> {
    if Answered(rs, 0) && ReturnOf(rs[0]).Some? then Some(OsInfoOf(ReturnOf(rs[0]).value, render)) else None
  }

  /** The name the older query yields from the first reply, if any. */
  ghost function LegacyName(rs: seq<Reply>): Option<string> {
    if Answered(rs, 0) && ReturnOf(rs[0]).Some? then LegacyOsOf(ReturnOf(rs[0]).value) else None
  }

  /** A fresh entry is returned as it is, and nothing is queried or stored. */
  lemma FreshHit(p: ProbeManager, vm: string, now: nat, stored: nat, render: Json -> string, rs: seq<Reply>)
    requires now <= stored
    requires vm in p.cache && Elapsed(p.cache[vm].at, now) < p.ttl
    ensures GetOs(p, vm, now, stored, render, rs) == Probed(Ok(Some(p.cache[vm].value)), p, [])
  {
  }

  /** Freshness is strict: an entry exactly `ttl` old is not served, and the
      agent is asked again. */
  lemma StaleAtTtl(p: ProbeManager, vm: string, now: nat, stored: nat, render: Json -> string, rs: seq<Reply>)
    requires now <= stored
    requires vm in p.cache && p.cache[vm].at + p.ttl == now
    ensures GetOs(p, vm, now, stored, render, rs).calls != []
    ensures GetOs(p, vm, now, stored, render, rs).calls[0] == Call(vm, GuestGetOsInfo, p.timeoutSecs)
  {
  }

  /** On a miss the newer query goes first; a name from it is stored and
      returned after that single call. */
  lemma OsInfoFirst(p: ProbeManager, vm: string, now: nat, stored: nat, render: Json -> string, rs: seq<Reply>)
    requires now <= stored
    requires CachedAt(p, vm, now).None?
    requires RichName(render, rs).Some?
    ensures var o := GetOs(p, vm, now, stored, render, rs);
            && o.result == Ok(RichName(render, rs))
            && o.calls == [Call(vm, GuestGetOsInfo, p.timeoutSecs)]
            && o.manager.cache == p.cache[vm := Entry(RichName(render, rs).value, stored)]
  {
  }

  /** On a miss where the newer query fails or finds nothing, the older query
      is made next, with the following reply, and a name from it is stored
      and returned. */
  lemma LegacyFallback(p: ProbeManager, vm: string, now: nat, stored: nat, render: Json -> string, rs: seq<Reply>)
    requires now <= stored
    requires CachedAt(p, vm, now).None?
    requires RichName(render, rs).None? && LegacyName(After(rs, 1)).Some?
    ensures var o := GetOs(p, vm, now, stored, render, rs);
            && o.result == Ok(LegacyName(After(rs, 1)))
            && o.calls == [Call(vm, GuestGetOsInfo, p.timeoutSecs), Call(vm, GuestGetOs, p.timeoutSecs)]
            && o.manager.cache == p.cache[vm := Entry(LegacyName(After(rs, 1)).value, stored)]
  {
  }

  /** On a miss where neither query yields a name: `Ok(None)` after both
      calls, and the cache is left as it was, a stale entry included. */
  lemma BothFail(p: ProbeManager, vm: string, now: nat, stored: nat, render: Json -> string, rs: seq<Reply>)
    requires now <= stored
    requires CachedAt(p, vm, now).None?
    requires RichName(render, rs).None? && LegacyName(After(rs, 1)).None?
    ensures var o := GetOs(p, vm, now, stored, render, rs);
            && o.result == Ok(None)
            && o.calls == [Call(vm, GuestGetOsInfo, p.timeoutSecs), Call(vm, GuestGetOs, p.timeoutSecs)]
            && o.manager == p
  {
  }

  /** After a lookup at `t` that misses the cache and gets a name from the
      agent, stored at `stored`, a lookup of the same VM at any `t2` before
      `stored + ttl` returns the same name without querying, whatever the
      agent would now say. The stamp is taken after the queries, so the name
      outlives `t + ttl` by however long they took. */
  lemma ReuseWithinTtl(p: ProbeManager, vm: string, t: nat, stored: nat, t2: nat, stored2: nat,
                       render: Json -> string, rs: seq<Reply>, rs2: seq<Reply>)
    requires t <= stored && t2 <= stored2
    requires CachedAt(p, vm, t).None?
    requires GetOs(p, vm, t, stored, render, rs).result.value.Some?
    requires 0 < p.ttl && t2 < stored + p.ttl
    ensures var o := GetOs(p, vm, t, stored, render, rs);
            GetOs(o.manager, vm, t2, stored2, render, rs2) == Probed(o.result, o.manager, [])
  {
    var o := GetOs(p, vm, t, stored, render, rs);
    assert o.manager.cache[vm] == Entry(o.result.value.value, stored);
  }

  /** Lookups of one VM never disturb the entries of other VMs. */
  lemma OtherEntriesKept(p: ProbeManager, vm: string, other: string, now: nat, stored: nat, render: Json -> string, rs: seq<Reply>)
    requires now <= stored
    requires other != vm && other in p.cache
    ensures var q := GetOs(p, vm, now, stored, render, rs).manager;
            other in q.cache && q.cache[other] == p.cache[other]
  {
  }
}
