/** The stress controller of routes/stress.js: a pool of CPU-bound workers
    that `/start` fills and `/stop` empties, a CPU-usage reading, and the
    memoised instance id fetched from the instance metadata service. */
module Stress {
  import opened Results
  import Js

  /** An opaque worker thread; handles are issued by a counter, so every
      spawned worker is new. */
  type Handle = nat

  /** What the controller does to a worker when the pool is stopped. */
  datatype WorkerEvent = PostStop(worker: Handle) | Terminate(worker: Handle)

  /** Requests made to the metadata service: the token PUT, then the
      instance-id GET carrying that token. */
  datatype MetadataCall = TokenPut | InstanceIdGet(token: string)

  /** What the metadata service answers to each of the two requests:
      `None` is an error or a timeout. */
  datatype MetadataService = MetadataService(token: Option<string>, instanceId: Option<string>)

  /** Tick counters of one logical core since boot, as `os.cpus()` gives them. */
  datatype CpuTimes = CpuTimes(user: nat, nice: nat, sys: nat, idle: nat, irq: nat)

  datatype CpuReading = CpuReading(usage: int, cores: nat)

  datatype StartReply = StartReply(message: string, workers: nat)

  datatype StatusReply = StatusReply(running: bool, workers: nat, cpu: int, cores: nat, instanceId: string)

  const AlreadyRunning := "Stress test already running"
  const Started := "Stress test started"
  const Stopped := "Stress test stopped"

  /** The id reported when the metadata service cannot be reached. */
  const LocalDev := "local-dev"

  // ---------------------------------------------------------------------
  // Worker pool

  /** The number of workers `/start` asks for: the body's `workers`, or the
      core count when that is missing or zero (`req.body.workers || cores`). */
  function RequestedWorkers(requested: Option<int>, cores: nat): (n: int)
    ensures requested == None || requested == Some(0) ==> n == cores
    ensures requested.Some? && requested.value != 0 ==> n == requested.value
  {
    match requested
    case None => cores
    case Some(k) => if k != 0 then k else cores
  }

  /** The events `/stop` emits for the workers `ws`, in order: each is sent
      `'stop'` and then terminated. */
  function StopEvents(ws: seq<Handle>): (evs: seq<WorkerEvent>)
    ensures |evs| == 2 * |ws|
    ensures forall i :: 0 <= i < |evs| ==> evs[i].worker == ws[i / 2]
  {
    if ws == [] then [] else StopEvents(ws[..|ws| - 1]) + [PostStop(ws[|ws| - 1]), Terminate(ws[|ws| - 1])]
  }

  /** The events for worker number i come at positions 2i and 2i+1. */
  lemma {:induction false} StopEventsAt(ws: seq<Handle>, i: nat)
    requires i < |ws|
    ensures |StopEvents(ws)| == 2 * |ws|
    ensures StopEvents(ws)[2 * i] == PostStop(ws[i])
    ensures StopEvents(ws)[2 * i + 1] == Terminate(ws[i])
  {
    var init := ws[..|ws| - 1];
    if i < |ws| - 1 {
      StopEventsAt(init, i);
    } else if init != [] {
      StopEventsAt(init, 0);
    }
  }

  predicate Distinct(ws: seq<Handle>) {
    forall i, j :: 0 <= i < j < |ws| ==> ws[i] != ws[j]
  }

  /** Of distinct workers, each is sent `'stop'` exactly once and terminated
      exactly once, and nothing is done to any other worker. */
  lemma {:induction false} StopEventsOnce(ws: seq<Handle>, w: Handle)
    requires Distinct(ws)
    ensures multiset(StopEvents(ws))[PostStop(w)] == (if w in ws then 1 else 0)
    ensures multiset(StopEvents(ws))[Terminate(w)] == (if w in ws then 1 else 0)
  {
    if ws != [] {
      var init, last := ws[..|ws| - 1], ws[|ws| - 1];
      DistinctInit(ws);
      StopEventsOnce(init, w);
      var before := StopEvents(init);
      assert StopEvents(ws) == before + [PostStop(last), Terminate(last)];
      CountAppend(before, PostStop(last), Terminate(last), PostStop(w));
      CountAppend(before, PostStop(last), Terminate(last), Terminate(w));
      assert w in ws <==> w in init || w == last by { assert ws == init + [last]; }
    }
  }

  lemma CountAppend(a: seq<WorkerEvent>, x: WorkerEvent, y: WorkerEvent, e: WorkerEvent)
    ensures multiset(a + [x, y])[e] == multiset(a)[e] + (if x == e then 1 else 0) + (if y == e then 1 else 0)
  {
    assert multiset(a + [x, y]) == multiset(a) + multiset{x, y};
  }

  /** Dropping the last of distinct workers leaves distinct workers, none of
      them the dropped one. */
  lemma DistinctInit(ws: seq<Handle>)
    requires Distinct(ws) && ws != []
    ensures Distinct(ws[..|ws| - 1]) && ws[|ws| - 1] !in ws[..|ws| - 1]
  {
  }

  // ---------------------------------------------------------------------
  // CPU usage

  /** Every tick counter of a core (the `for (type in cpu.times)` sum). */
  function Ticks(c: CpuTimes): (t: nat)
    ensures c.idle <= t
  {
    c.user + c.nice + c.sys + c.idle + c.irq
  }

  function TotalIdle(cpus: seq<CpuTimes>): (t: nat)
    ensures forall i :: 0 <= i < |cpus| ==> cpus[i].idle <= t
  {
    if cpus == [] then 0 else TotalIdle(cpus[..|cpus| - 1]) + cpus[|cpus| - 1].idle
  }

  function TotalTick(cpus: seq<CpuTimes>): (t: nat)
    ensures forall i :: 0 <= i < |cpus| ==> Ticks(cpus[i]) <= t
  {
    if cpus == [] then 0 else TotalTick(cpus[..|cpus| - 1]) + Ticks(cpus[|cpus| - 1])
  }

  /** Idle time is part of the total, summed over any set of cores. */
  lemma {:induction false} IdleWithinTotal(cpus: seq<CpuTimes>)
    ensures TotalIdle(cpus) <= TotalTick(cpus)
  {
    if cpus != [] {
      IdleWithinTotal(cpus[..|cpus| - 1]);
    }
  }

  function Clamp(x: int): (r: int)
    ensures 0 <= r <= 100
    ensures 0 <= x <= 100 ==> r == x
  {
    if x < 0 then 0 else if x > 100 then 100 else x
  }

  /** `100 - ~~(100 * idle / total)`, clamped to [0,100]. The averages over
      the core count cancel in the quotient. A zero total makes the quotient
      NaN, which `~~` turns into 0, so the usage is then 100. */
  function Usage(idle: nat, tick: nat): (u: int)
    ensures 0 <= u <= 100
  {
    if tick == 0 then 100 else Clamp(100 - (100 * idle) / tick)
  }

  /** No ticks at all (no cores, or counters still at zero): the quotient is
      NaN, `~~` makes it 0, and the usage reported is 100. */
  lemma UsageNoTicks(idle: nat)
    ensures Usage(idle, 0) == 100
  {
  }

  /** With idle time inside the total, the clamp never changes the value:
      the usage is exactly 100 minus the truncated idle percentage. */
  lemma UsageUnclamped(idle: nat, tick: nat)
    requires idle <= tick && tick > 0
    ensures Usage(idle, tick) == 100 - (100 * idle) / tick
    ensures idle == 0 ==> Usage(idle, tick) == 100
    ensures idle == tick ==> Usage(idle, tick) == 0
  {
    DivAtMost(100 * idle, tick, 100);
  }

  /** a <= c * b gives a / b <= c. */
  lemma DivAtMost(a: nat, b: nat, c: nat)
    requires b > 0 && a <= c * b
    ensures a / b <= c
  {
    var q, r := a / b, a % b;
    assert a == q * b + r && 0 <= r < b;
    MulAtLeast(q - c, b);
  }

  /** A positive multiple of b is at least b. */
  lemma MulAtLeast(x: int, b: nat)
    requires b > 0
    ensures x >= 1 ==> x * b >= b
  {
  }

  /** getCPUUsage: sums the counters core by core and derives the usage. */
  method GetCpuUsage(cpus: seq<CpuTimes>) returns (reading: CpuReading)
    ensures reading.cores == |cpus|
    ensures 0 <= reading.usage <= 100
    ensures reading.usage == Usage(TotalIdle(cpus), TotalTick(cpus))
    ensures TotalTick(cpus) > 0 ==> reading.usage == 100 - (100 * TotalIdle(cpus)) / TotalTick(cpus)
    ensures TotalTick(cpus) == 0 ==> reading.usage == 100
  {
    var totalIdle, totalTick := 0, 0;
    var i := 0;
    while i < |cpus|
      invariant 0 <= i <= |cpus|
      invariant totalIdle == TotalIdle(cpus[..i])
      invariant totalTick == TotalTick(cpus[..i])
    {
      var cpu := cpus[i];
      totalTick := totalTick + cpu.user + cpu.nice + cpu.sys + cpu.idle + cpu.irq;
      totalIdle := totalIdle + cpu.idle;
      assert cpus[..i + 1][..i] == cpus[..i];
      i := i + 1;
    }
    assert cpus[..i] == cpus;
    var usage;
    if totalTick == 0 {
      usage := 100;
    } else {
      usage := 100 - (100 * totalIdle) / totalTick;
    }
    IdleWithinTotal(cpus);
    if totalTick > 0 {
      UsageUnclamped(totalIdle, totalTick);
    }
    reading := CpuReading(Clamp(usage), |cpus|);
  }

  // ---------------------------------------------------------------------
  // Instance id

  /** The `if (cachedInstanceId)` test: the cache, null until the first
      fetch, is tested for truthiness, so a cached empty string is not a hit. */
  function CacheHit(cached: Option<string>): (hit: bool)
    ensures hit <==> Js.Truthy(if cached.Some? then Js.Str(cached.value) else Js.Null)
  {
    cached.Some? && cached.value != ""
  }

  /** One call of getInstanceId: the id returned, the cache afterwards and
      the metadata requests it makes. */
  datatype Resolution = Resolution(id: string, cache: Option<string>, calls: seq<MetadataCall>)

  function ResolveInstanceId(cached: Option<string>, service: MetadataService): (r: Resolution)
    ensures CacheHit(cached) ==> r == Resolution(cached.value, cached, [])
    ensures !CacheHit(cached) && service.token == None ==>
              r == Resolution(LocalDev, cached, [TokenPut])
    ensures !CacheHit(cached) && service.token.Some? && service.instanceId == None ==>
              r == Resolution(LocalDev, cached, [TokenPut, InstanceIdGet(service.token.value)])
    ensures !CacheHit(cached) && service.token.Some? && service.instanceId.Some? ==>
              r.id == service.instanceId.value && r.cache == service.instanceId &&
              r.calls == [TokenPut, InstanceIdGet(service.token.value)]
  {
    if CacheHit(cached) then Resolution(cached.value, cached, [])
    else match service.token
      case None => Resolution(LocalDev, cached, [TokenPut])
      case Some(token) =>
        var calls := [TokenPut, InstanceIdGet(token)];
        match service.instanceId
        case None => Resolution(LocalDev, cached, calls)
        case Some(id) => Resolution(id, Some(id), calls)
  }

  /** A failed resolution is not remembered: a later call that reaches the
      service obtains and caches the real id. */
  lemma FallbackIsRetried(cached: Option<string>, down: MetadataService, up: MetadataService)
    requires !CacheHit(cached)
    requires down.token == None || down.instanceId == None
    requires up.token.Some? && up.instanceId.Some?
    ensures ResolveInstanceId(cached, down).id == LocalDev
    ensures var second := ResolveInstanceId(ResolveInstanceId(cached, down).cache, up);
            second.id == up.instanceId.value && second.cache == up.instanceId && |second.calls| == 2
  {
  }

  /** Once a non-empty id is cached, every later call returns it without any
      request, whatever the service would answer. */
  lemma CachedIdIsStable(id: string, service: MetadataService)
    requires id != ""
    ensures ResolveInstanceId(Some(id), service) == Resolution(id, Some(id), [])
  {
  }

  /** An empty id is cached but is not a hit: the next call fetches again. */
  lemma EmptyIdIsRefetched(service: MetadataService)
    ensures ResolveInstanceId(Some(""), service).calls != []
  {
  }

  // ---------------------------------------------------------------------
  // The controller

  class StressController {
    var workers: seq<Handle>
    var nextHandle: nat
    var events: seq<WorkerEvent>
    var cachedInstanceId: Option<string>
    var metadataCalls: seq<MetadataCall>

    /** Live workers are distinct handles already issued. */
    ghost predicate Valid()
      reads this`workers, this`nextHandle
    {
      Distinct(workers) && forall w :: w in workers ==> w < nextHandle
    }

    constructor ()
      ensures Valid()
      ensures workers == [] && events == [] && cachedInstanceId == None && metadataCalls == []
    {
      workers, nextHandle, events := [], 0, [];
      cachedInstanceId, metadataCalls := None, [];
    }

    /** POST /start */
    method Start(requested: Option<int>, cores: nat) returns (reply: StartReply)
      requires Valid()
      modifies this`workers, this`nextHandle
      ensures Valid()
      ensures old(workers) != [] ==>
                workers == old(workers) && reply == StartReply(AlreadyRunning, |old(workers)|)
      ensures old(workers) == [] ==>
                var n := RequestedWorkers(requested, cores);
                |workers| == (if n > 0 then n else 0) &&
                (forall w :: w in workers ==> old(nextHandle) <= w) &&
                reply == StartReply(Started, |workers|)
    {
      var numWorkers := RequestedWorkers(requested, cores);
      if |workers| > 0 {
        return StartReply(AlreadyRunning, |workers|);
      }
      var i := 0;
      while i < numWorkers
        invariant Valid()
        invariant |workers| == i && i <= (if numWorkers > 0 then numWorkers else 0)
        invariant old(nextHandle) <= nextHandle
        invariant forall w :: w in workers ==> old(nextHandle) <= w
      {
        assert nextHandle !in workers;
        workers := workers + [nextHandle];
        nextHandle := nextHandle + 1;
        i := i + 1;
      }
      reply := StartReply(Started, |workers|);
    }

    /** POST /stop */
    method Stop() returns (message: string)
      requires Valid()
      modifies this`workers, this`events
      ensures Valid()
      ensures workers == []
      ensures events == old(events) + StopEvents(old(workers))
      ensures message == Stopped
    {
      var i := 0;
      while i < |workers|
        invariant 0 <= i <= |workers| && workers == old(workers)
        invariant events == old(events) + StopEvents(workers[..i])
      {
        assert workers[..i + 1][..i] == workers[..i];
        events := events + [PostStop(workers[i])];
        events := events + [Terminate(workers[i])];
        i := i + 1;
      }
      assert workers[..i] == workers;
      workers := [];
      message := Stopped;
    }

    /** getInstanceId */
    method GetInstanceId(service: MetadataService) returns (id: string)
      modifies this`cachedInstanceId, this`metadataCalls
      ensures var r := ResolveInstanceId(old(cachedInstanceId), service);
              id == r.id && cachedInstanceId == r.cache && metadataCalls == old(metadataCalls) + r.calls
    {
      if CacheHit(cachedInstanceId) {
        return cachedInstanceId.value;
      }
      metadataCalls := metadataCalls + [TokenPut];
      if service.token == None {
        return LocalDev;
      }
      var token := service.token.value;
      metadataCalls := metadataCalls + [InstanceIdGet(token)];
      if service.instanceId == None {
        return LocalDev;
      }
      cachedInstanceId := service.instanceId;
      id := cachedInstanceId.value;
    }

    /** GET /status */
    method Status(cpus: seq<CpuTimes>, service: MetadataService) returns (reply: StatusReply)
      modifies this`cachedInstanceId, this`metadataCalls
      ensures reply.running <==> |workers| > 0
      ensures reply.workers == |workers|
      ensures reply.cpu == Usage(TotalIdle(cpus), TotalTick(cpus)) && 0 <= reply.cpu <= 100
      ensures reply.cores == |cpus|
      ensures var r := ResolveInstanceId(old(cachedInstanceId), service);
              reply.instanceId == r.id && cachedInstanceId == r.cache &&
              metadataCalls == old(metadataCalls) + r.calls
    {
      var cpu := GetCpuUsage(cpus);
      var instanceId := GetInstanceId(service);
      reply := StatusReply(|workers| > 0, |workers|, cpu.usage, cpu.cores, instanceId);
    }
  }

  // ---------------------------------------------------------------------
  // Sequences of requests against one controller

  /** Starting a stopped pool with N >= 1 workers, then asking for the
      status, reports it running with N workers. */
  method StartThenStatus(c: StressController, n: int, cores: nat, cpus: seq<CpuTimes>, service: MetadataService)
    returns (status: StatusReply)
    requires c.Valid() && c.workers == [] && n >= 1
    modifies c
    ensures c.Valid()
    ensures status.running && status.workers == n
  {
    var _ := c.Start(Some(n), cores);
    status := c.Status(cpus, service);
  }

  /** A second start without a stop in between changes nothing. */
  method StartTwice(c: StressController, first: Option<int>, second: Option<int>, cores: nat)
    returns (reply: StartReply)
    requires c.Valid()
    modifies c
    ensures c.Valid()
    ensures var n := RequestedWorkers(first, cores);
            old(c.workers) == [] && n > 0 ==> reply == StartReply(AlreadyRunning, n) && |c.workers| == n
  {
    var _ := c.Start(first, cores);
    reply := c.Start(second, cores);
  }

  /** Stopping twice is the same as stopping once: the second stop finds an
      empty pool and emits no events. */
  method StopTwice(c: StressController)
    requires c.Valid()
    modifies c
    ensures c.Valid() && c.workers == []
    ensures c.events == old(c.events) + StopEvents(old(c.workers))
  {
    var _ := c.Stop();
    var _ := c.Stop();
  }
}
