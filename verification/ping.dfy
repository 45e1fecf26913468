/** The `ping` command: send up to a given number of echo requests one
    after the other, stopping at the first that throws, then report the
    fastest and slowest round trip and how many requests were sent,
    answered and lost. */
module PingCommand {
  import opened Network

  /** The i-th echo request of the command (counting from 0): what awaiting
      `new Ping().SendPingAsync(site)` yields for that request. */
  type Pinger = nat -> Awaited<PingReply>

  /** What the command reports, the average time aside. */
  datatype PingReport = PingReport(sent: int, received: int, lost: int, min: int, max: int, times: seq<int>)

  /** The first `n` requests were all answered. */
  predicate AllAnswered(probe: Pinger, n: nat)
  {
    forall i: nat :: i < n ==> probe(i).Returned?
  }

  /** How many of the first `n` requests were answered with Success. */
  function SuccessReplies(probe: Pinger, n: nat): (k: nat)
    requires AllAnswered(probe, n)
    ensures k <= n
    ensures k == n <==> forall i: nat :: i < n ==> probe(i).value.status == Success
  {
    if n == 0 then 0
    else SuccessReplies(probe, n - 1) + (if probe(n - 1).value.status == Success then 1 else 0)
  }

  /** `Enumerable.Min`: the least element, or an error when there is none. */
  method Minimum(xs: seq<int>) returns (r: Result<int>)
    ensures r.Failure? <==> |xs| == 0
    ensures r.Failure? ==> r.error == EmptySequence
    ensures r.Ok? ==> r.value in xs && forall x :: x in xs ==> r.value <= x
  {
    if |xs| == 0 {
      return Failure(EmptySequence);
    }
    var m := xs[0];
    for i := 1 to |xs|
      invariant m in xs[..i]
      invariant forall j :: 0 <= j < i ==> m <= xs[j]
    {
      if xs[i] < m {
        m := xs[i];
      }
    }
    assert xs[..|xs|] == xs;
    return Ok(m);
  }

  /** `Enumerable.Max`: the greatest element, or an error when there is none. */
  method Maximum(xs: seq<int>) returns (r: Result<int>)
    ensures r.Failure? <==> |xs| == 0
    ensures r.Failure? ==> r.error == EmptySequence
    ensures r.Ok? ==> r.value in xs && forall x :: x in xs ==> x <= r.value
  {
    if |xs| == 0 {
      return Failure(EmptySequence);
    }
    var m := xs[0];
    for i := 1 to |xs|
      invariant m in xs[..i]
      invariant forall j :: 0 <= j < i ==> xs[j] <= m
    {
      if xs[i] > m {
        m := xs[i];
      }
    }
    assert xs[..|xs|] == xs;
    return Ok(m);
  }

  /** The request at index `k` threw `message` and every request before it
      was answered, so the loop got there. */
  ghost predicate ThrowsAt(probe: Pinger, amount: int, k: nat, message: string)
  {
    k < amount && probe(k) == Threw(message) && AllAnswered(probe, k)
  }

  /** `ExecuteAsync`. Allocating the times array fails for a negative amount
      before any request is sent; an exception from a request ends the loop;
      with no times at all the statistics fail on an empty sequence. Every
      failure is rethrown as a command error. */
  method Execute(probe: Pinger, amount: int) returns (r: Result<PingReport>)
    ensures amount < 0 ==> r == Failure(NegativeArrayLength)
    ensures amount == 0 ==> r == Failure(EmptySequence)
    ensures amount > 0 ==> (r.Ok? <==> AllAnswered(probe, amount))
    ensures amount > 0 && r.Failure? ==>
              r.error.Raised? && exists k: nat :: ThrowsAt(probe, amount, k, r.error.message)
    ensures r.Ok? ==> amount > 0 && AllAnswered(probe, amount)
    ensures r.Ok? ==> r.value.sent == amount && |r.value.times| == amount
    ensures r.Ok? ==> forall i :: 0 <= i < amount ==> r.value.times[i] == probe(i).value.roundtripTime
    ensures r.Ok? ==> r.value.received == SuccessReplies(probe, amount)
    ensures r.Ok? ==> 0 <= r.value.received <= r.value.sent
    ensures r.Ok? ==> r.value.lost == r.value.sent - r.value.received && r.value.lost >= 0
    ensures r.Ok? ==> (r.value.lost == 0 <==> forall i: nat :: i < amount ==> probe(i).value.status == Success)
    ensures r.Ok? ==> r.value.min in r.value.times && r.value.max in r.value.times
    ensures r.Ok? ==> forall t :: t in r.value.times ==> r.value.min <= t <= r.value.max
  {
    if amount < 0 {
      return Failure(NegativeArrayLength);
    }
    var sent, received := 0, 0;
    var times: seq<int> := [];
    for i := 0 to amount
      invariant sent == i && |times| == i
      invariant AllAnswered(probe, i)
      invariant forall j :: 0 <= j < i ==> times[j] == probe(j).value.roundtripTime
      invariant received == SuccessReplies(probe, i)
    {
      var ping := probe(i);
      if ping.Threw? {
        assert ThrowsAt(probe, amount, i, ping.message);
        return Failure(Raised(ping.message));
      }
      sent := sent + 1;
      times := times + [ping.value.roundtripTime];
      if ping.value.status == Success {
        received := received + 1;
      }
    }
    var min := Minimum(times);
    var max := Maximum(times);
    if min.Failure? || max.Failure? {
      return Failure(EmptySequence);
    }
    return Ok(PingReport(sent, received, sent - received, min.value, max.value, times));
  }
}
