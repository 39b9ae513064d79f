/**
 * The run coordinator: one scheduled run.  It checks the log for a missed
 * schedule, probes the connectivity host, reads the link listing and, for
 * every interface that is up, reads its current server, probes it and, when
 * it is unreachable or too slow, probes the whole pool and applies the
 * fastest reachable server (or the fallback when none answers).
 *
 * The outside world is the environment `Env`: the log, the clock, the link
 * listing and three oracles for `ping`, `resolvectl status` and the
 * three commands that apply a server.  Every command the run issues is an
 * `Action` of its trace; an oracle is asked with the position `k` its
 * command takes in the trace, so the same question may get different
 * answers at different times (a server just applied shows up in the next
 * status reading, say).
 */
module Coordinator {
  import opened Text
  import opened Config
  import opened Links
  import opened Ping
  import opened Resolvectl
  import opened LastRun
  import opened Selection

  /** A command the run issues: a latency probe, a status reading, or applying a server to an interface. */
  datatype Action =
    | Probe(dns: string)
    | Query(iface: string)
    | Apply(iface: string, dns: string)

  /** How far applying a server got: `resolvectl set-dns`, `resolvectl flush-caches`, restarting the resolver. */
  datatype ApplyStatus = ApplyStatus(setDns: bool, flush: bool, restart: bool)

  datatype Env = Env(
    log: seq<string>,                           // the log's lines before this run
    clock: string -> Option<int>,               // a timestamp's time in seconds, or `None` when it names no time
    now: real,                                  // the current time, in seconds
    links: seq<string>,                         // the lines `ip link` prints
    ping: (nat, string) -> PingOutput,          // what `ping -c 2 <dns>` gives at trace position k
    status: (nat, string) -> seq<string>,       // the lines `resolvectl status <iface>` prints at trace position k
    apply: (nat, string, string) -> ApplyStatus // how the three commands applying a server fare at trace position k
  )

  datatype Outcome =
    | Aborted        // the newest timestamp of the log before the run names no time: the parse error ends the run
    | Offline        // the connectivity host did not answer: fallback applied everywhere
    | NoInterfaces   // the link listing held no interface
    | Completed      // every listed interface was processed

  datatype Report = Report(outcome: Outcome, warned: bool, trace: seq<Action>)

  /**
   * The answers the run acts on: a probe's latency (`None` when the server is
   * unreachable), an interface's current server, and how applying a server
   * fares, each as a function of the command's position in the trace.
   */
  datatype World = World(
    latency: (nat, string) -> Option<real>,
    current: (nat, string) -> Option<string>,
    apply: (nat, string, string) -> ApplyStatus
  )

  /** What `test_dns_server` and `get_current_dns` make of the outputs the environment gives. */
  function WorldOf(env: Env): World {
    World(
      (k: nat, dns: string) =>
        match TestDnsServer(dns, env.ping(k, dns))
        case Reachable(_, latency) => Some(latency)
        case Unreachable(_) => None,
      (k: nat, iface: string) => CurrentDns(env.status(k, iface)),
      env.apply)
  }

  /** The probe result of `dns` when its probe is command number `k`. */
  function ProbeAt(w: World, k: nat, dns: string): (r: ProbeResult)
    ensures r.dns == dns
    ensures r.Reachable? <==> w.latency(k, dns).Some?
  {
    match w.latency(k, dns)
    case Some(latency) => Reachable(dns, latency)
    case None => Unreachable(dns)
  }

  /** The probe result of the run's world is the one `test_dns_server` reports for the ping output. */
  lemma ProbeAtIsTest(env: Env, k: nat, dns: string)
    ensures ProbeAt(WorldOf(env), k, dns) == TestDnsServer(dns, env.ping(k, dns))
  {
    var r := TestDnsServer(dns, env.ping(k, dns));
    assert WorldOf(env).latency(k, dns) == if r.Reachable? then Some(r.latency) else None;
  }

  /** `set_dns_server` succeeds exactly when all three commands succeed. */
  predicate ApplyOk(w: World, k: nat, iface: string, dns: string) {
    var st := w.apply(k, iface, dns);
    st.setDns && st.flush && st.restart
  }

  /** The commands of `set_dns_server`: applying the server, then, on success, the status reading that checks it. */
  function ApplyActs(w: World, k: nat, iface: string, dns: string): seq<Action> {
    if ApplyOk(w, k, iface, dns) then [Apply(iface, dns), Query(iface)] else [Apply(iface, dns)]
  }

  /** One probe per pool server, in pool order. */
  function ProbeAll(pool: seq<string>): (r: seq<Action>)
    ensures |r| == |pool| && forall j :: 0 <= j < |pool| ==> r[j] == Probe(pool[j])
  {
    seq(|pool|, j requires 0 <= j < |pool| => Probe(pool[j]))
  }

  /** The probe results of the pool when its first probe is command number `k`: result `j` is the probe of server `j`, issued as command `k + j`. */
  function PoolResults(w: World, k: nat, pool: seq<string>): (r: seq<ProbeResult>)
    ensures |r| == |pool| && forall j :: 0 <= j < |pool| ==> r[j] == ProbeAt(w, k + j, pool[j])
  {
    if pool == [] then []
    else PoolResults(w, k, pool[..|pool| - 1]) + [ProbeAt(w, k + |pool| - 1, pool[|pool| - 1])]
  }

  /** The server an update applies: the fastest reachable pool server, or the fallback when none answered. */
  function Choice(results: seq<ProbeResult>): string {
    match Fastest(results)
    case Some(best) => best.dns
    case None => FallbackDns
  }

  /** Probing the pool and applying the choice; a chosen pool server that was applied is read back. */
  function UpdateActs(w: World, k: nat, iface: string, pool: seq<string>): seq<Action> {
    var results := PoolResults(w, k, pool);
    var at := k + |pool|;
    var dns := Choice(results);
    ProbeAll(pool) + ApplyActs(w, at, iface, dns)
    + (if Fastest(results).Some? && ApplyOk(w, at, iface, dns) then [Query(iface)] else [])
  }

  /** Probing the current server and updating when it is unreachable or slower than the threshold. */
  function CheckActs(w: World, pool: seq<string>, k: nat, iface: string, current: string): seq<Action> {
    [Probe(current)] + (if NeedsUpdate(ProbeAt(w, k, current)) then UpdateActs(w, k + 1, iface, pool) else [])
  }

  /**
   * An interface without a current server: the fallback is applied; the run
   * goes on with it only when applying succeeded and a new reading shows it.
   */
  function RecoverActs(w: World, pool: seq<string>, k: nat, iface: string): seq<Action> {
    var applied := ApplyActs(w, k, iface, FallbackDns);
    if !ApplyOk(w, k, iface, FallbackDns) then applied
    else
      var at := k + |applied|;
      applied + [Query(iface)]
      + (if w.current(at, iface) == Some(FallbackDns) then CheckActs(w, pool, at + 1, iface, FallbackDns) else [])
  }

  /** The commands for one listed interface; one that is not up is skipped. */
  function IfaceActs(w: World, pool: seq<string>, k: nat, x: Interface): seq<Action> {
    if x.state != Up then []
    else
      [Query(x.name)] +
      match w.current(k, x.name)
      case Some(current) => CheckActs(w, pool, k + 1, x.name, current)
      case None => RecoverActs(w, pool, k + 1, x.name)
  }

  /** The commands of `step` for every interface, one after the other, each numbered after those before it. */
  function Fold(step: (nat, Interface) -> seq<Action>, k: nat, xs: seq<Interface>): seq<Action> {
    if xs == [] then []
    else
      var before := Fold(step, k, xs[..|xs| - 1]);
      before + step(k + |before|, xs[|xs| - 1])
  }

  /** One more interface adds its own commands after those of the interfaces before it. */
  lemma FoldStep(step: (nat, Interface) -> seq<Action>, k: nat, xs: seq<Interface>, i: nat)
    requires i < |xs|
    ensures var before := Fold(step, k, xs[..i]);
            Fold(step, k, xs[..i + 1]) == before + step(k + |before|, xs[i])
  {
    var ys := xs[..i + 1];
    assert ys[..|ys| - 1] == xs[..i] && ys[|ys| - 1] == xs[i];
  }

  /** The interface loop's step: the commands for one interface. */
  function IfaceStep(w: World, pool: seq<string>): (nat, Interface) -> seq<Action> {
    (k: nat, x: Interface) => IfaceActs(w, pool, k, x)
  }

  /** The commands for the interfaces, one after the other. */
  function IfacesActs(w: World, pool: seq<string>, k: nat, xs: seq<Interface>): seq<Action> {
    Fold(IfaceStep(w, pool), k, xs)
  }

  /** The commands of the offline path: the fallback applied to every interface that is up. */
  function OfflineActs(w: World, k: nat, xs: seq<Interface>): seq<Action> {
    if xs == [] then []
    else
      var before := OfflineActs(w, k, xs[..|xs| - 1]);
      var x := xs[|xs| - 1];
      before + (if x.state == Up then ApplyActs(w, k + |before|, x.name, FallbackDns) else [])
  }

  /**
   * The whole run, as `main` performs it in run mode, except that the drift
   * check reads the log as it was before the run: as written, `main` logs its
   * own start line first, and that line is what the check then finds
   * (`LastRun.AsWrittenNeverWarns`).
   */
  function RunSpec(env: Env): Report {
    match DriftOf(env.log, env.clock, env.now)
    case Unparsable => Report(Aborted, false, [])
    case drift =>
      var warned := drift == Checked(true);
      var w := WorldOf(env);
      var start := [Probe(ConnectivityProbe)];
      var xs := ParseLinks(env.links);
      if ProbeAt(w, 0, ConnectivityProbe).Unreachable? then
        Report(Offline, warned, start + OfflineActs(w, 1, xs))
      else if xs == [] then Report(NoInterfaces, warned, start)
      else Report(Completed, warned, start + IfacesActs(w, DnsServers, 1, xs))
  }

  // ---------------------------------------------------------------------------
  // The run, step by step

  /**
   * `set_dns_server`: the three commands, then, when all succeeded, a status
   * reading that is only logged.  The result is whether all three succeeded,
   * whatever the reading shows.
   */
  method SetDnsServer(w: World, k: nat, iface: string, dns: string) returns (ok: bool, acts: seq<Action>)
    ensures ok <==> w.apply(k, iface, dns).setDns && w.apply(k, iface, dns).flush && w.apply(k, iface, dns).restart
    ensures acts == ApplyActs(w, k, iface, dns)
  {
    var st := w.apply(k, iface, dns);
    acts := [Apply(iface, dns)];
    if !st.setDns || !st.flush || !st.restart {
      return false, acts;
    }
    var shown := w.current(k + 1, iface);
    acts := acts + [Query(iface)];
    ok := true;
  }

  /** Probing every pool server in order, collecting the results. */
  method ProbePool(w: World, k: nat, pool: seq<string>) returns (results: seq<ProbeResult>, acts: seq<Action>)
    ensures results == PoolResults(w, k, pool)
    ensures acts == ProbeAll(pool)
  {
    results, acts := [], [];
    var j := 0;
    while j < |pool|
      invariant 0 <= j <= |pool|
      invariant results == PoolResults(w, k, pool[..j])
      invariant acts == ProbeAll(pool[..j])
    {
      var dns := pool[j];
      assert pool[..j + 1][..j] == pool[..j];
      results := results + [ProbeAt(w, k + j, dns)];
      acts := acts + [Probe(dns)];
      j := j + 1;
    }
    assert pool[..j] == pool;
  }

  /** Probing the whole pool and applying the fastest reachable server, or the fallback when none answered. */
  method Update(w: World, k: nat, iface: string, pool: seq<string>) returns (acts: seq<Action>)
    ensures acts == UpdateActs(w, k, iface, pool)
  {
    var results, probes := ProbePool(w, k, pool);
    var at := k + |pool|;
    var fastest := Fastest(results);
    if fastest.Some? {
      var ok, applied := SetDnsServer(w, at, iface, fastest.value.dns);
      acts := probes + applied;
      if ok {
        var shown := w.current(at + |applied|, iface);
        acts := acts + [Query(iface)];
      }
    } else {
      var ok, applied := SetDnsServer(w, at, iface, FallbackDns);
      acts := probes + applied;
    }
  }

  /** Testing the current server and, when an update is needed, replacing it with the best of `pool`. */
  method CheckCurrent(w: World, pool: seq<string>, k: nat, iface: string, current: string) returns (acts: seq<Action>)
    ensures acts == CheckActs(w, pool, k, iface, current)
  {
    var result := ProbeAt(w, k, current);
    if result.Unreachable? || result.latency > LatencyThreshold {
      var updated := Update(w, k + 1, iface, pool);
      acts := [Probe(current)] + updated;
    } else {
      acts := [Probe(current)];
    }
  }

  /** An interface without a current server: apply the fallback, read the status again, go on only if it shows the fallback. */
  method Recover(w: World, pool: seq<string>, k: nat, iface: string) returns (acts: seq<Action>)
    ensures acts == RecoverActs(w, pool, k, iface)
  {
    var ok, applied := SetDnsServer(w, k, iface, FallbackDns);
    acts := applied;
    if !ok {
      return;
    }
    var again := w.current(k + |applied|, iface);
    acts := acts + [Query(iface)];
    if again != Some(FallbackDns) {
      return;
    }
    var checked := CheckCurrent(w, pool, k + |applied| + 1, iface, FallbackDns);
    acts := acts + checked;
  }

  /** The body of the interface loop of `main`. */
  method ProcessInterface(w: World, pool: seq<string>, k: nat, x: Interface) returns (acts: seq<Action>)
    ensures acts == IfaceActs(w, pool, k, x)
  {
    if x.state != Up {
      return [];
    }
    var current := w.current(k, x.name);
    var rest;
    if current.None? {
      rest := Recover(w, pool, k + 1, x.name);
    } else {
      rest := CheckCurrent(w, pool, k + 1, x.name, current.value);
    }
    acts := [Query(x.name)] + rest;
  }

  /**
   * The interface loop of `main`; `step` stands for the commands of one
   * interface, `IfaceActs`.  It is passed as a ghost parameter only so that
   * the loop invariant, stated with `Fold` over an opaque step, does not
   * unfold each interface's commands; the requires pins it to `IfaceActs`.
   */
  method ProcessInterfaces(w: World, pool: seq<string>, k: nat, xs: seq<Interface>, ghost step: (nat, Interface) -> seq<Action>)
      returns (acts: seq<Action>)
    requires forall k', x {:trigger IfaceActs(w, pool, k', x)} :: step(k', x) == IfaceActs(w, pool, k', x)
    ensures acts == Fold(step, k, xs)
  {
    acts := [];
    var i := 0;
    while i < |xs|
      invariant 0 <= i <= |xs|
      invariant acts == Fold(step, k, xs[..i])
    {
      var here := ProcessInterface(w, pool, k + |acts|, xs[i]);
      FoldStep(step, k, xs, i);
      acts := acts + here;
      i := i + 1;
    }
    assert xs[..i] == xs;
  }

  /** The loop of the offline path: the fallback for every interface that is up. */
  method ApplyFallbackEverywhere(w: World, k: nat, xs: seq<Interface>) returns (acts: seq<Action>)
    ensures acts == OfflineActs(w, k, xs)
  {
    acts := [];
    var i := 0;
    while i < |xs|
      invariant 0 <= i <= |xs|
      invariant acts == OfflineActs(w, k, xs[..i])
    {
      assert xs[..i + 1][..i] == xs[..i];
      if xs[i].state == Up {
        var ok, applied := SetDnsServer(w, k + |acts|, xs[i].name, FallbackDns);
        acts := acts + applied;
      }
      i := i + 1;
    }
    assert xs[..i] == xs;
  }

  /** One run of `main` in run mode. */
  method Run(env: Env) returns (report: Report)
    ensures report == RunSpec(env)
  {
    var drift := CheckLastRun(env.log, env.clock, env.now);
    if drift.Unparsable? {
      return Report(Aborted, false, []);
    }
    var warned := drift == Checked(true);
    var w := WorldOf(env);
    var start := [Probe(ConnectivityProbe)];
    var internet := ProbeAt(w, 0, ConnectivityProbe);
    if internet.Unreachable? {
      var xs := GetActiveInterfaces(env.links);
      var acts := ApplyFallbackEverywhere(w, 1, xs);
      return Report(Offline, warned, start + acts);
    }
    var xs := GetActiveInterfaces(env.links);
    if xs == [] {
      return Report(NoInterfaces, warned, start);
    }
    var acts := ProcessInterfaces(w, DnsServers, 1, xs, IfaceStep(w, DnsServers));
    report := Report(Completed, warned, start + acts);
  }

  // ---------------------------------------------------------------------------
  // What the run promises

  /** Every status reading and every server applied in `acts` concerns the interface `iface`. */
  predicate Targets(acts: seq<Action>, iface: string) {
    forall a :: a in acts && !a.Probe? ==> a.iface == iface
  }

  lemma UpdateTargets(w: World, k: nat, iface: string, pool: seq<string>)
    ensures Targets(UpdateActs(w, k, iface, pool), iface)
  {
    var acts := UpdateActs(w, k, iface, pool);
    forall a | a in acts && !a.Probe? ensures a.iface == iface {
      assert a !in ProbeAll(pool);
    }
  }

  lemma CheckTargets(w: World, pool: seq<string>, k: nat, iface: string, current: string)
    ensures Targets(CheckActs(w, pool, k, iface, current), iface)
  {
    UpdateTargets(w, k + 1, iface, pool);
  }

  /** One interface's commands concern that interface alone, and there are none unless it is up. */
  lemma IfaceTargets(w: World, pool: seq<string>, k: nat, x: Interface)
    ensures IfaceActs(w, pool, k, x) == [] || x.state == Up
    ensures Targets(IfaceActs(w, pool, k, x), x.name)
  {
    if x.state == Up {
      if w.current(k, x.name).Some? {
        CheckTargets(w, pool, k + 1, x.name, w.current(k, x.name).value);
      } else {
        RecoverTargets(w, pool, k + 1, x.name);
      }
    }
  }

  lemma RecoverTargets(w: World, pool: seq<string>, k: nat, iface: string)
    ensures Targets(RecoverActs(w, pool, k, iface), iface)
  {
    CheckTargets(w, pool, k + |ApplyActs(w, k, iface, FallbackDns)| + 1, iface, FallbackDns);
  }

  /** Folding steps that each touch only their own interface, when it is up, touches only interfaces of the list that are up. */
  lemma {:induction false} FoldTargets(step: (nat, Interface) -> seq<Action>, k: nat, xs: seq<Interface>)
    requires forall k', x :: (step(k', x) == [] || x.state == Up) && Targets(step(k', x), x.name)
    ensures forall a :: a in Fold(step, k, xs) && !a.Probe? ==> Interface(a.iface, Up) in xs
    decreases |xs|
  {
    if xs != [] {
      var p, last := xs[..|xs| - 1], xs[|xs| - 1];
      FoldTargets(step, k, p);
      var before := Fold(step, k, p);
      forall a | a in Fold(step, k, xs) && !a.Probe? ensures Interface(a.iface, Up) in xs {
        if a in before {
          assert Interface(a.iface, Up) in p;
          assert xs == p + [last];
        } else {
          assert a in step(k + |before|, last);
          assert last == Interface(a.iface, Up);
        }
      }
    }
  }

  /** The offline path issues no probe, applies nothing but the fallback, and touches only interfaces that are up. */
  lemma {:induction false} OfflineTargets(w: World, k: nat, xs: seq<Interface>)
    ensures forall a :: a in OfflineActs(w, k, xs) ==>
              !a.Probe? && (a.Apply? ==> a.dns == FallbackDns) && Interface(a.iface, Up) in xs
    decreases |xs|
  {
    if xs != [] {
      var p, last := xs[..|xs| - 1], xs[|xs| - 1];
      OfflineTargets(w, k, p);
      assert xs == p + [last];
    }
  }

  /** The offline path applies the fallback to every interface that is up. */
  lemma {:induction false} OfflineCovers(w: World, k: nat, xs: seq<Interface>)
    ensures forall x :: x in xs && x.state == Up ==> Apply(x.name, FallbackDns) in OfflineActs(w, k, xs)
    decreases |xs|
  {
    if xs != [] {
      var p, last := xs[..|xs| - 1], xs[|xs| - 1];
      OfflineCovers(w, k, p);
      assert xs == p + [last];
      var before := OfflineActs(w, k, p);
      if last.state == Up {
        assert ApplyActs(w, k + |before|, last.name, FallbackDns)[0] == Apply(last.name, FallbackDns);
      }
    }
  }

  /** Every status reading and every server applied in a run concerns a listed interface that is up. */
  lemma RunTouchesOnlyUp(env: Env)
    ensures forall a :: a in RunSpec(env).trace && !a.Probe? ==> Interface(a.iface, Up) in ParseLinks(env.links)
  {
    var w := WorldOf(env);
    var xs := ParseLinks(env.links);
    OfflineTargets(w, 1, xs);
    forall k', x ensures (IfaceStep(w, DnsServers)(k', x) == [] || x.state == Up)
                         && Targets(IfaceStep(w, DnsServers)(k', x), x.name) {
      IfaceTargets(w, DnsServers, k', x);
    }
    FoldTargets(IfaceStep(w, DnsServers), 1, xs);
  }

  /** A run never reads or changes the loopback interface, whatever the link listing holds. */
  lemma RunNeverTouchesLoopback(env: Env)
    ensures forall a :: a in RunSpec(env).trace && !a.Probe? ==> a.iface != "lo"
  {
    RunTouchesOnlyUp(env);
    NoLoopback(env.links);
  }

  /** Folding steps that each start with a status reading of their own interface, when it is up, reads every interface of the list that is up. */
  lemma {:induction false} FoldQueries(step: (nat, Interface) -> seq<Action>, k: nat, xs: seq<Interface>)
    requires forall k': nat, x: Interface :: x.state == Up ==> step(k', x) != [] && step(k', x)[0] == Query(x.name)
    ensures forall x :: x in xs && x.state == Up ==> Query(x.name) in Fold(step, k, xs)
    decreases |xs|
  {
    if xs != [] {
      var p, last := xs[..|xs| - 1], xs[|xs| - 1];
      FoldQueries(step, k, p);
      var before := Fold(step, k, p);
      assert xs == p + [last];
      forall x | x in xs && x.state == Up ensures Query(x.name) in Fold(step, k, xs) {
        if x in p {
          assert Query(x.name) in before;
        } else {
          assert step(k + |before|, last)[0] == Query(x.name);
        }
      }
    }
  }

  /**
   * A run that gets to the interface loop reads the status of every listed
   * interface that is up: no interface, whether it fails, is kept or is
   * updated, stops the loop from going on to the next.
   */
  lemma RunQueriesEveryUp(env: Env)
    requires RunSpec(env).outcome == Completed
    ensures forall x :: x in ParseLinks(env.links) && x.state == Up ==> Query(x.name) in RunSpec(env).trace
  {
    var w := WorldOf(env);
    var xs := ParseLinks(env.links);
    var step := IfaceStep(w, DnsServers);
    forall k': nat, x: Interface | x.state == Up ensures step(k', x) != [] && step(k', x)[0] == Query(x.name) {
    }
    FoldQueries(step, 1, xs);
    assert RunSpec(env).trace == [Probe(ConnectivityProbe)] + Fold(step, 1, xs);
  }

  /**
   * When the connectivity host does not answer, the run applies the fallback
   * to every listed interface that is up, applies nothing else, probes
   * nothing more and ends.
   */
  lemma RunOffline(env: Env)
    requires !DriftOf(env.log, env.clock, env.now).Unparsable?
    requires TestDnsServer(ConnectivityProbe, env.ping(0, ConnectivityProbe)).Unreachable?
    ensures var r := RunSpec(env);
            && r.outcome == Offline && |r.trace| > 0 && r.trace[0] == Probe(ConnectivityProbe)
            && (forall a :: a in r.trace[1..] ==> !a.Probe? && (a.Apply? ==> a.dns == FallbackDns))
            && (forall x :: x in ParseLinks(env.links) && x.state == Up ==> Apply(x.name, FallbackDns) in r.trace)
  {
    var w := WorldOf(env);
    var xs := ParseLinks(env.links);
    ProbeAtIsTest(env, 0, ConnectivityProbe);
    OfflineTargets(w, 1, xs);
    OfflineCovers(w, 1, xs);
    var r := RunSpec(env);
    assert r.trace == [Probe(ConnectivityProbe)] + OfflineActs(w, 1, xs);
    assert r.trace[1..] == OfflineActs(w, 1, xs);
  }

  /** A current server that answers within the threshold is kept: one probe, nothing applied. */
  lemma KeptWhenFast(w: World, pool: seq<string>, k: nat, x: Interface, current: string)
    requires x.state == Up && w.current(k, x.name) == Some(current)
    requires w.latency(k + 1, current).Some? && w.latency(k + 1, current).value <= LatencyThreshold
    ensures IfaceActs(w, pool, k, x) == [Query(x.name), Probe(current)]
  {
  }

  /**
   * An update probes every pool server once, in pool order, and then applies
   * the earliest of the fastest reachable servers, or the fallback when no
   * pool server answered.
   */
  lemma UpdateChoosesFastest(w: World, k: nat, iface: string, pool: seq<string>)
    ensures var acts := UpdateActs(w, k, iface, pool);
            var results := PoolResults(w, k, pool);
            var n := |pool|;
            && |acts| > n && acts[..n] == ProbeAll(pool)
            && if forall j :: 0 <= j < n ==> results[j].Unreachable? then acts[n] == Apply(iface, FallbackDns)
               else exists i: nat :: IsEarliestFastest(results, i) && acts[n] == Apply(iface, pool[i])
  {
    var acts := UpdateActs(w, k, iface, pool);
    var results := PoolResults(w, k, pool);
    var n := |pool|;
    assert acts[..n] == ProbeAll(pool);
    FastestNoneIff(results);
    if forall j :: 0 <= j < n ==> results[j].Unreachable? {
      assert Fastest(results).None?;
    } else {
      var i := FastestIsEarliestMinimum(results);
      assert results[i] == ProbeAt(w, k + i, pool[i]);
      assert acts[n] == Apply(iface, pool[i]);
      assert PoolResults(w, k, pool)[i].Reachable?;
    }
  }

  /**
   * An interface without a current server first gets the fallback applied;
   * its server is tested further, with the fallback as the current server,
   * exactly when applying succeeded and a new reading shows the fallback.
   */
  lemma NoServerRecovers(w: World, pool: seq<string>, k: nat, name: string)
    requires w.current(k, name).None?
    ensures var acts := IfaceActs(w, pool, k, Interface(name, Up));
            var recovered := ApplyOk(w, k + 1, name, FallbackDns) && w.current(k + 3, name) == Some(FallbackDns);
            && |acts| >= 2 && acts[0] == Query(name) && acts[1] == Apply(name, FallbackDns)
            && (recovered ==> |acts| > 4 && acts[4] == Probe(FallbackDns))
            && (!recovered ==> forall a :: a in acts ==> !a.Probe?)
  {
  }
}
