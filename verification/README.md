# InternetTestCLI core, modelled in Dafny

InternetTestCLI is a command-line network toolkit. Most of its commands pass a
request to the operating system or a web service and print the answer. This
project models the three commands that hold logic of their own:

- **trace** (`traceroute.dfy`, module `Traceroute`). It probes a host with TTL 1, 2, … up
  to `max_hops`, one echo request per TTL. It records one step per reply and
  stops after the first reply whose status is `Success`. It then prints an
  overview. A step counts as a success when its status is `Success` or
  `TtlExpired`; any other status counts as a failure. The overview also
  holds the summed round-trip time.
- **downdetector** (`downdetector.dfy`, module `DownDetector`). It puts
  `https://` in front of the site unless the site already *contains*
  `https://` or `http://` somewhere. It requests the URL, then picks the
  colour of the status code from five half-open ranges: [100,200) up to
  [500,600).
- **ping** (`ping.dfy`, module `PingCommand`). It sends up to `amount` echo
  requests, one after the other, stopping at the first that throws. It counts how many were sent and how many were answered
  with `Success`, and keeps every round-trip time. It then reports the
  minimum, the maximum and `lost = sent - received`.

`network.dfy` (module `Network`) holds the shared values: the reply statuses,
the echo reply, the outcome of an awaited call (`Returned` or `Threw`) and the
command result. Each command catches every exception and rethrows it as a
command error with the same message. The model keeps the cause, so
`Result.Failure(Raised(m))` stands for a command error with message `m`.

Network calls are oracles passed in as parameters. In `Traceroute` it is a
function from TTL to reply. In `PingCommand` it is a function from the request
index to reply. In `DownDetector` it is a function from URL to status report.
Each oracle may throw. Operations that contain a loop in the source are
methods with loop invariants. Every operation is also tied to an independent
statement of what it computes:

- `Trace` is tied to the predicates `IsRoute` and `AbortsWith`, and the
  lemmas show these determine the outcome uniquely.
- `Summarize` is tied to the recursive counts `SuccessCount`, `FailedCount`
  and `TotalTime`.
- `NormalizeUrl` is tied to the substring characterisation of `Contains`.
- `Classify` is tied to the band predicate `InBand` and to the code's
  hundreds digit.
- `Minimum` and `Maximum` are tied to membership and bounds.

Three behaviours of the code are worth stating:

- A probe that throws is not recorded as a step. The exception leaves `Trace`
  and aborts the whole command (Traceroute.cs:74-76), so no overview is
  printed.
- Name resolution happens inside every echo request. An unresolvable host
  therefore shows up as the first probe throwing.
- Nothing cancels a trace part-way.

## Model

| member | source | states |
|---|---|---|
| Traceroute.Trace | InternetTestCLI/Commands/Traceroute.cs:80-107 | A returned route has TTLs 1..k in order, with k at most max(maxHops, 0). Each step copies the address, round-trip time and status of the reply for its TTL. No step but the last is `Success`, and the route ends at a `Success` or has exactly max(maxHops, 0) steps. A failure carries the message of the first probe that threw, reached only after replies that were not `Success`. |
| Traceroute.RouteUnique | InternetTestCLI/Commands/Traceroute.cs:84-104 | The route is a function of the probe replies and the budget: two routes that both meet the trace's postcondition are equal. |
| Traceroute.ShortRouteEndsInSuccess | InternetTestCLI/Commands/Traceroute.cs:102-103 | A route shorter than the budget is non-empty, and the probe at its last TTL answered `Success`. |
| Traceroute.RouteExcludesAbort | InternetTestCLI/Commands/Traceroute.cs:84-94 | A trace that returns a route was not aborted by any probe exception, so the two outcomes exclude each other. |
| Traceroute.AbortUnique | InternetTestCLI/Commands/Traceroute.cs:84-86 | Only one exception can abort a trace, namely the first one thrown, so the message is determined. |
| Traceroute.FirstSuccessEndsRoute | InternetTestCLI/Commands/Traceroute.cs:102-103 | A `Success` reply at TTL k within the budget means the route has at most k steps. If every earlier probe answered without `Success`, the route has exactly k steps and ends with that `Success` step. |
| Traceroute.NoSuccessExhausts | InternetTestCLI/Commands/Traceroute.cs:84-104 | If no probe within the budget answers `Success`, a returned route has exactly max(maxHops, 0) steps. |
| Traceroute.Summarize | InternetTestCLI/Commands/Traceroute.cs:51-60 | The overview loop yields the number of `Success`/`TtlExpired` steps, the number of other steps and the summed round-trip time. These two counts add up to the route length, and an empty route gives all zeros. |
| Traceroute.CountsPartition | InternetTestCLI/Commands/Traceroute.cs:54-58 | Every step is counted exactly once, as a success or as a failure. |
| Traceroute.CountsOfAppend | InternetTestCLI/Commands/Traceroute.cs:54-59 | The success count, the failure count and the total time of a concatenated route are the sums of those of its parts. |
| Traceroute.TimeoutsOnlyFail | InternetTestCLI/Commands/Traceroute.cs:54-58 | If every probe within the budget times out, a returned route uses the whole budget, with no successes and every step failed. |
| Traceroute.Execute | InternetTestCLI/Commands/Traceroute.cs:45-77 | The command fails exactly with the aborting probe's message. Otherwise its overview is the overview of a route of the trace, its counts add up to at most max(maxHops, 0), and it is all zeros when maxHops <= 0. |
| DownDetector.Contains | InternetTestCLI/Commands/DownDetector.cs:44 | The ordinal search answers true exactly when the pattern occurs at some index of the string. |
| DownDetector.NormalizeUrl | InternetTestCLI/Commands/DownDetector.cs:43-48 | The URL always contains `https://` or `http://`. It is the input or `https://` + input, and it equals the input exactly when the input already contains one of the two. |
| DownDetector.NormalizeIdempotent | InternetTestCLI/Commands/DownDetector.cs:44-48 | Normalising a normalised URL changes nothing. |
| DownDetector.ProtocolAnywhereKept | InternetTestCLI/Commands/DownDetector.cs:44 | The test is for a substring, not a prefix: an input with `http://` or `https://` anywhere in it is left unchanged. |
| DownDetector.Classify | InternetTestCLI/Commands/DownDetector.cs:57-65 | A code gets a class exactly when it is in [100,600), and the class's hundreds digit is code / 100. The class is the one band whose half-open range holds the code. |
| DownDetector.BandsDisjoint | InternetTestCLI/Commands/DownDetector.cs:59-63 | No code lies in two of the five ranges. |
| DownDetector.StatusColor | InternetTestCLI/Commands/DownDetector.cs:57-64 | A code in one of the five ranges gets that range's colour: Blue, Green, Yellow, Red or DarkRed from [100,200) up to [500,600). A code outside [100,600) keeps the console's current colour. |
| DownDetector.ColorsSeparateClasses | InternetTestCLI/Commands/DownDetector.cs:59-63 | Two codes in [100,600) get the same colour exactly when they share their hundreds digit. |
| DownDetector.Execute | InternetTestCLI/Commands/DownDetector.cs:39-76 | The command fails exactly when the request for the normalised URL throws, and then with its message. Otherwise it reports the normalised URL, which contains a protocol, and the status the request returned. The colour is the status class's colour for codes in [100,600) and the console's current colour for any other code. |
| PingCommand.SuccessReplies | InternetTestCLI/Commands/Ping.cs:36-39 | The number of `Success` replies among the first n is at most n, and equals n exactly when every one of them is `Success`. |
| PingCommand.Minimum | InternetTestCLI/Commands/Ping.cs:50 | `Min` fails exactly on an empty sequence. Otherwise it returns an element that is at most every element. |
| PingCommand.Maximum | InternetTestCLI/Commands/Ping.cs:54 | `Max` fails exactly on an empty sequence. Otherwise it returns an element that is at least every element. |
| PingCommand.Execute | InternetTestCLI/Commands/Ping.cs:19-76 | A negative amount fails at allocation and an amount of 0 fails on the empty statistics. For a positive amount, the command succeeds exactly when every request is answered, and otherwise carries the first exception's message. On success: sent equals amount, and times[i] is the round-trip time of request i. Received is the number of `Success` replies, so 0 <= received <= sent. Lost equals sent - received, is never negative, and is 0 exactly when every reply is `Success`. Min and max are elements of times that bound every element. |

## Left out

- Sending ICMP echo requests is not modelled. This covers `Ping.SendPingAsync`, the `PingOptions.Ttl` setting, the 32-byte buffer of `TraceRoute` and name resolution. Each probe is an oracle parameter that returns a reply or throws. The trace's target, its 5000 ms timeout and the site pinged are fixed inside that oracle.
- `Internet.GetStatusInfoAsync` is an oracle from URL to status report, because it is an HTTP request in a library.
- Console output is not modelled: every `WriteLine`, the `=` underline banners and the colour resets. Only the choice of colour for the status code is modelled.
- The ping average (`times.Average()` formatted as `0.00`) is left out because it is floating point. The exception it throws on an empty array is the `EmptySequence` failure for an amount of 0.
- The texts of the .NET exceptions for a negative array length and for an empty sequence are not modelled. These failures are the constants `NegativeArrayLength` and `EmptySequence`.
- Integer widths are not modelled. TTLs, counts and times are unbounded integers. The source's `int` TTL counter would wrap only after 2^31 - 1 probes, and its `long` time sum would overflow only if the round-trip times summed past 2^63.
- The default option values (30 hops, 4 pings) are not modelled. They are parameters of `Execute`.
- `Ip.cs`, `IPInfo.cs`, `Dns.cs`, `Update.cs`, `WiFiPasswords.cs`, `Requests.cs` and `Program.cs` are not part of this model. They are HTTP, DNS, WHOIS, process and file wrappers with no logic of their own.
- Asynchronous scheduling is not modelled. Every loop awaits one call at a time, so the model runs sequentially.
