/** The `trace` command: probe the path to a host with increasing TTLs, one
    echo request per TTL, stopping at the first reply from the host itself,
    then reduce the recorded steps to an overview. */
module Traceroute {
  import opened Network

  /** One probed hop: the TTL it was probed with and the reply copied field
      by field. */
  datatype TracertStep = TracertStep(ttl: int, address: string, roundtripTime: int, status: IPStatus)

  /** The probe sent with a given TTL. It stands for `TraceRoute(target, ttl,
      timeout)`, with the target and the timeout of one trace fixed; the
      network decides what each TTL yields. */
  type Prober = int -> Awaited<PingReply>

  /** The overview printed after a trace. */
  datatype Overview = Overview(success: int, failed: int, time: int)

  /** The number of TTLs a trace may probe: the loop runs for TTL 1 up to
      `maxHops`, so not at all when `maxHops` is not positive. */
  function Budget(maxHops: int): nat
  {
    if maxHops < 0 then 0 else maxHops
  }

  function StepOf(ttl: int, reply: PingReply): TracertStep
  {
    TracertStep(ttl, reply.address, reply.roundtripTime, reply.status)
  }

  /** `step` records the reply to the probe at `ttl`. */
  predicate Records(probe: Prober, ttl: int, step: TracertStep)
  {
    probe(ttl).Returned? && step == StepOf(ttl, probe(ttl).value)
  }

  /** The probe at `ttl` answered, and not with Success, so the trace goes on
      to the next TTL. */
  predicate Continues(probe: Prober, ttl: int)
  {
    probe(ttl).Returned? && probe(ttl).value.status != Success
  }

  /** `steps` is what a trace returns when no probe throws: step i records
      the reply to TTL i + 1, no step but the last is a Success, and the
      trace stopped either at a Success or with the budget spent. */
  ghost predicate IsRoute(probe: Prober, maxHops: int, steps: seq<TracertStep>)
  {
    && |steps| <= Budget(maxHops)
    && (forall i :: 0 <= i < |steps| ==> Records(probe, i + 1, steps[i]))
    && (forall i :: 0 <= i < |steps| - 1 ==> steps[i].status != Success)
    && (|steps| == Budget(maxHops) || (|steps| > 0 && steps[|steps| - 1].status == Success))
  }

  /** The probe at TTL `k` threw `message`, and every probe before it
      answered with something other than Success, so the trace got there. */
  ghost predicate ThrowsAt(probe: Prober, maxHops: int, k: int, message: string)
  {
    && 1 <= k <= maxHops
    && probe(k) == Threw(message)
    && forall j :: 1 <= j < k ==> Continues(probe, j)
  }

  /** The trace is aborted by the exception `message`. */
  ghost predicate AbortsWith(probe: Prober, maxHops: int, message: string)
  {
    exists k :: ThrowsAt(probe, maxHops, k, message)
  }

  /** The probing loop. An exception from a probe leaves the loop and is
      the result; otherwise the steps recorded so far are. */
  method Trace(probe: Prober, maxHops: int) returns (r: Result<seq<TracertStep>>)
    ensures r.Ok? ==> IsRoute(probe, maxHops, r.value)
    ensures r.Ok? ==> |r.value| <= Budget(maxHops)
    ensures r.Ok? ==> forall i :: 0 <= i < |r.value| ==> r.value[i].ttl == i + 1
    ensures r.Failure? ==> r.error.Raised? && AbortsWith(probe, maxHops, r.error.message)
  {
    var steps: seq<TracertStep> := [];
    var ttl := 1;
    while ttl <= maxHops
      invariant 1 <= ttl <= Budget(maxHops) + 1
      invariant |steps| == ttl - 1
      invariant forall i :: 0 <= i < |steps| ==> Records(probe, i + 1, steps[i])
      invariant forall j :: 1 <= j < ttl ==> Continues(probe, j)
      invariant forall i :: 0 <= i < |steps| ==> steps[i].status != Success
      decreases maxHops - ttl
    {
      var reply := probe(ttl);
      if reply.Threw? {
        assert ThrowsAt(probe, maxHops, ttl, reply.message);
        return Failure(Raised(reply.message));
      }
      steps := steps + [StepOf(ttl, reply.value)];
      if reply.value.status == Success {
        return Ok(steps);
      }
      assert Continues(probe, ttl);
      ttl := ttl + 1;
    }
    return Ok(steps);
  }

  /** A trace that returns has one possible route: the route is a function
      of the probe answers and the budget. */
  lemma {:induction false} RouteUnique(probe: Prober, maxHops: int, a: seq<TracertStep>, b: seq<TracertStep>)
    requires IsRoute(probe, maxHops, a) && IsRoute(probe, maxHops, b)
    ensures a == b
  {
    ShorterRouteImpossible(probe, maxHops, a, b);
    ShorterRouteImpossible(probe, maxHops, b, a);
    assert |a| == |b|;
    forall i | 0 <= i < |a|
      ensures a[i] == b[i]
    {
      assert Records(probe, i + 1, a[i]) && Records(probe, i + 1, b[i]);
    }
  }

  /** Step `ttl` - 1 of a route records the answer to TTL `ttl`. */
  lemma StepAnswered(probe: Prober, maxHops: int, steps: seq<TracertStep>, ttl: int)
    requires IsRoute(probe, maxHops, steps)
    requires 1 <= ttl <= |steps|
    ensures probe(ttl).Returned? && steps[ttl - 1] == StepOf(ttl, probe(ttl).value)
  {
  }

  /** A route that stops short of the budget ends at a Success reply. */
  lemma ShortRouteEndsInSuccess(probe: Prober, maxHops: int, steps: seq<TracertStep>)
    requires IsRoute(probe, maxHops, steps)
    requires |steps| < Budget(maxHops)
    ensures |steps| > 0 && probe(|steps|).Returned? && probe(|steps|).value.status == Success
  {
  }

  /** Every TTL before the last step of a route was answered, and not with
      Success. */
  lemma ContinuesBeforeLast(probe: Prober, maxHops: int, steps: seq<TracertStep>, ttl: int)
    requires IsRoute(probe, maxHops, steps)
    requires 1 <= ttl < |steps|
    ensures Continues(probe, ttl)
  {
    assert Records(probe, ttl, steps[ttl - 1]);
  }

  /** Of two routes for the same probes, neither stops before the other. */
  lemma ShorterRouteImpossible(probe: Prober, maxHops: int, a: seq<TracertStep>, b: seq<TracertStep>)
    requires IsRoute(probe, maxHops, a) && IsRoute(probe, maxHops, b)
    ensures |a| >= |b|
  {
    if |a| < |b| {
      ShortRouteEndsInSuccess(probe, maxHops, a);
      ContinuesBeforeLast(probe, maxHops, b, |a|);
      assert false;
    }
  }

  /** A trace cannot both return a route and be aborted by an exception. */
  lemma RouteExcludesAbort(probe: Prober, maxHops: int, steps: seq<TracertStep>, message: string)
    requires IsRoute(probe, maxHops, steps)
    ensures !AbortsWith(probe, maxHops, message)
  {
    if AbortsWith(probe, maxHops, message) {
      var k :| ThrowsAt(probe, maxHops, k, message);
      if k <= |steps| {
        StepAnswered(probe, maxHops, steps, k);
        assert false;
      } else {
        ShortRouteEndsInSuccess(probe, maxHops, steps);
        ContinuesBelow(probe, k, |steps|);
        assert false;
      }
    }
  }

  /** Instantiates "every TTL below `k` continues" at one TTL. */
  lemma ContinuesBelow(probe: Prober, k: int, j: int)
    requires forall t :: 1 <= t < k ==> Continues(probe, t)
    requires 1 <= j < k
    ensures probe(j).Returned? && probe(j).value.status != Success
  {
    assert Continues(probe, j);
  }

  /** The exception that aborts a trace is the first one: it is unique. */
  lemma AbortUnique(probe: Prober, maxHops: int, m1: string, m2: string)
    requires AbortsWith(probe, maxHops, m1) && AbortsWith(probe, maxHops, m2)
    ensures m1 == m2
  {
    var k1 :| ThrowsAt(probe, maxHops, k1, m1);
    var k2 :| ThrowsAt(probe, maxHops, k2, m2);
    if k1 < k2 {
      ContinuesBelow(probe, k2, k1);
      assert false;
    } else if k2 < k1 {
      ContinuesBelow(probe, k1, k2);
      assert false;
    }
  }

  /** A Success reply within the budget ends the route no later than its
      TTL, and exactly there when no probe before it threw or succeeded. */
  lemma FirstSuccessEndsRoute(probe: Prober, maxHops: int, steps: seq<TracertStep>, k: int)
    requires IsRoute(probe, maxHops, steps)
    requires 1 <= k <= maxHops
    requires probe(k).Returned? && probe(k).value.status == Success
    ensures |steps| <= k
    ensures (forall j :: 1 <= j < k ==> Continues(probe, j)) ==>
              |steps| == k && steps[k - 1].status == Success
  {
    if |steps| > k {
      ContinuesBeforeLast(probe, maxHops, steps, k);
      assert false;
    }
    if (forall j :: 1 <= j < k ==> Continues(probe, j)) && |steps| < k {
      ShortRouteEndsInSuccess(probe, maxHops, steps);
      ContinuesBelow(probe, k, |steps|);
      assert false;
    }
    if |steps| == k {
      assert Records(probe, k, steps[k - 1]);
    }
  }

  /** When no probe within the budget answers Success, a route that comes
      back has spent the whole budget. */
  lemma NoSuccessExhausts(probe: Prober, maxHops: int, steps: seq<TracertStep>)
    requires IsRoute(probe, maxHops, steps)
    requires forall ttl :: 1 <= ttl <= maxHops && probe(ttl).Returned? ==> probe(ttl).value.status != Success
    ensures |steps| == Budget(maxHops)
  {
  }

  /** A step counts as a success when the host or a router on the way
      answered. */
  predicate Responded(status: IPStatus)
  {
    status == Success || status == TtlExpired
  }

  /** The steps that responded. */
  function SuccessCount(route: seq<TracertStep>): nat
  {
    if route == [] then 0
    else SuccessCount(route[..|route| - 1]) + (if Responded(route[|route| - 1].status) then 1 else 0)
  }

  /** The steps that did not respond. */
  function FailedCount(route: seq<TracertStep>): nat
  {
    if route == [] then 0
    else FailedCount(route[..|route| - 1]) + (if Responded(route[|route| - 1].status) then 0 else 1)
  }

  /** The round-trip times of all steps added up. */
  function TotalTime(route: seq<TracertStep>): int
  {
    if route == [] then 0
    else TotalTime(route[..|route| - 1]) + route[|route| - 1].roundtripTime
  }

  /** Every step is counted once, as a success or as a failure. */
  lemma {:induction false} CountsPartition(route: seq<TracertStep>)
    ensures SuccessCount(route) + FailedCount(route) == |route|
  {
    if route != [] {
      CountsPartition(route[..|route| - 1]);
    }
  }

  /** The overview of a route is the sum of the overviews of its parts. */
  lemma {:induction false} CountsOfAppend(a: seq<TracertStep>, b: seq<TracertStep>)
    ensures SuccessCount(a + b) == SuccessCount(a) + SuccessCount(b)
    ensures FailedCount(a + b) == FailedCount(a) + FailedCount(b)
    ensures TotalTime(a + b) == TotalTime(a) + TotalTime(b)
  {
    if b == [] {
      assert a + b == a;
    } else {
      var c := b[..|b| - 1];
      assert (a + b)[..|a + b| - 1] == a + c;
      CountsOfAppend(a, c);
    }
  }

  /** The loop over the route in `ExecuteAsync` that tallies the overview. */
  method Summarize(route: seq<TracertStep>) returns (o: Overview)
    ensures o.success == SuccessCount(route)
    ensures o.failed == FailedCount(route)
    ensures o.time == TotalTime(route)
    ensures o.success + o.failed == |route|
    ensures route == [] ==> o == Overview(0, 0, 0)
  {
    var success, failed, time := 0, 0, 0;
    for i := 0 to |route|
      invariant success == SuccessCount(route[..i])
      invariant failed == FailedCount(route[..i])
      invariant time == TotalTime(route[..i])
      invariant success + failed == i
    {
      assert route[..i + 1][..i] == route[..i];
      if Responded(route[i].status) {
        success := success + 1;
      } else {
        failed := failed + 1;
      }
      time := time + route[i].roundtripTime;
    }
    assert route[..|route|] == route;
    o := Overview(success, failed, time);
  }

  /** When every probe within the budget times out, the route is the whole
      budget and every step is a failure. */
  lemma TimeoutsOnlyFail(probe: Prober, maxHops: int, steps: seq<TracertStep>)
    requires IsRoute(probe, maxHops, steps)
    requires forall ttl :: 1 <= ttl <= maxHops ==> probe(ttl).Returned? && probe(ttl).value.status == TimedOut
    ensures |steps| == Budget(maxHops)
    ensures SuccessCount(steps) == 0 && FailedCount(steps) == |steps|
  {
    NoSuccessExhausts(probe, maxHops, steps);
    NoneResponded(steps);
  }

  /** A route with no responding step has no successes. */
  lemma {:induction false} NoneResponded(route: seq<TracertStep>)
    requires forall i :: 0 <= i < |route| ==> !Responded(route[i].status)
    ensures SuccessCount(route) == 0 && FailedCount(route) == |route|
  {
    if route != [] {
      NoneResponded(route[..|route| - 1]);
    }
  }

  /** `ExecuteAsync`: trace, then tally. An exception from any probe aborts
      the command before an overview exists and is rethrown with its
      message. */
  method Execute(probe: Prober, maxHops: int) returns (r: Result<Overview>)
    ensures r.Failure? ==> r.error.Raised? && AbortsWith(probe, maxHops, r.error.message)
    ensures r.Ok? ==> exists route :: IsRoute(probe, maxHops, route) && r.value == Overview(SuccessCount(route), FailedCount(route), TotalTime(route))
    ensures r.Ok? ==> r.value.success + r.value.failed <= Budget(maxHops)
    ensures maxHops <= 0 ==> r == Ok(Overview(0, 0, 0))
  {
    var route := Trace(probe, maxHops);
    if route.Failure? {
      return Failure(route.error);
    }
    var o := Summarize(route.value);
    return Ok(o);
  }
}
