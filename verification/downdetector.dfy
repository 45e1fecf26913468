/** The `downdetector` command: default the URL's protocol to HTTPS, request
    the site, and colour the reported status code by its class. */
module DownDetector {
  import opened Network

  const Https: string := "https://"
  const Http: string := "http://"

  /** `pattern` occurs in `s` starting at index `i`. */
  predicate OccursAt(s: string, pattern: string, i: int)
  {
    0 <= i && i + |pattern| <= |s| && s[i..i + |pattern|] == pattern
  }

  /** Ordinal `string.Contains`: a search for `pattern` from index `from` on. */
  function ContainsFrom(s: string, pattern: string, from: nat): (b: bool)
    ensures b <==> exists i :: from <= i && OccursAt(s, pattern, i)
    decreases |s| - from
  {
    if from + |pattern| > |s| then false
    else if s[from..from + |pattern|] == pattern then
      assert OccursAt(s, pattern, from);
      true
    else ContainsFrom(s, pattern, from + 1)
  }

  /** `s.Contains(pattern)`: the pattern occurs anywhere in `s`. */
  function Contains(s: string, pattern: string): (b: bool)
    ensures b <==> exists i :: OccursAt(s, pattern, i)
  {
    ContainsFrom(s, pattern, 0)
  }

  /** The test the command applies to decide whether a protocol was given. */
  predicate HasProtocol(url: string)
  {
    Contains(url, Https) || Contains(url, Http)
  }

  /** The URL the command requests: the input when it already names a
      protocol anywhere in it, else the input behind `https://`. */
  function NormalizeUrl(site: string): (url: string)
    ensures HasProtocol(url)
    ensures url == site || url == Https + site
    ensures url == site <==> HasProtocol(site)
  {
    if HasProtocol(site) then site
    else
      assert OccursAt(Https + site, Https, 0);
      Https + site
  }

  /** Normalising twice changes nothing more than normalising once. */
  lemma NormalizeIdempotent(site: string)
    ensures NormalizeUrl(NormalizeUrl(site)) == NormalizeUrl(site)
  {
  }

  /** The protocol test looks for a substring, not a prefix: `http://` or
      `https://` anywhere in the input leaves it as it is. */
  lemma ProtocolAnywhereKept(before: string, protocol: string, after: string)
    requires protocol == Http || protocol == Https
    ensures HasProtocol(before + protocol + after)
    ensures NormalizeUrl(before + protocol + after) == before + protocol + after
  {
    var s := before + protocol + after;
    assert s[|before|..|before| + |protocol|] == protocol;
    assert OccursAt(s, protocol, |before|);
  }

  /** The classes of HTTP status codes, one per hundred from 100 to 599. */
  datatype StatusClass = Informational | Successful | Redirection | ClientError | ServerError

  /** The hundreds digit of the codes in a class. */
  function Hundreds(c: StatusClass): int
  {
    match c
    case Informational => 1
    case Successful => 2
    case Redirection => 3
    case ClientError => 4
    case ServerError => 5
  }

  /** `code` lies in the half-open range of class `c`. */
  predicate InBand(code: int, c: StatusClass)
  {
    100 * Hundreds(c) <= code < 100 * Hundreds(c) + 100
  }

  /** The guards of the status-code switch, tried in order. */
  function Classify(code: int): (c: Option<StatusClass>)
    ensures c.Some? <==> 100 <= code < 600
    ensures c.Some? ==> Hundreds(c.value) == code / 100
    ensures forall k :: InBand(code, k) <==> c == Some(k)
  {
    if code >= 100 && code < 200 then Some(Informational)
    else if code >= 200 && code < 300 then Some(Successful)
    else if code >= 300 && code < 400 then Some(Redirection)
    else if code >= 400 && code < 500 then Some(ClientError)
    else if code >= 500 && code < 600 then Some(ServerError)
    else None
  }

  /** No code lies in two bands. */
  lemma BandsDisjoint(code: int, a: StatusClass, b: StatusClass)
    requires InBand(code, a) && InBand(code, b)
    ensures a == b
  {
  }

  datatype ConsoleColor = Blue | Green | Yellow | Red | DarkRed | OtherColor(name: string)

  function ClassColor(c: StatusClass): ConsoleColor
  {
    match c
    case Informational => Blue
    case Successful => Green
    case Redirection => Yellow
    case ClientError => Red
    case ServerError => DarkRed
  }

  /** The colour the status code is written in: its class's colour, or the
      console's `current` colour for a code outside 100..599. */
  function StatusColor(code: int, current: ConsoleColor): (color: ConsoleColor)
    ensures !(100 <= code < 600) ==> color == current
    ensures forall k :: InBand(code, k) ==> color == ClassColor(k)
  {
    match Classify(code)
    case Some(c) => ClassColor(c)
    case None => current
  }

  /** Two codes in 100..599 get the same colour exactly when they share
      their hundreds digit. */
  lemma ColorsSeparateClasses(a: int, b: int, current: ConsoleColor)
    requires 100 <= a < 600 && 100 <= b < 600
    ensures StatusColor(a, current) == StatusColor(b, current) <==> a / 100 == b / 100
  {
  }

  /** What `Internet.GetStatusInfoAsync` reports about a site. */
  datatype StatusInfo = StatusInfo(statusCode: int, statusType: string, statusDescription: string)

  /** The request the command makes, given the URL; the network decides. */
  type Fetcher = string -> Awaited<StatusInfo>

  datatype Report = Report(url: string, info: StatusInfo, color: ConsoleColor)

  /** `ExecuteAsync`: normalise the URL, request it once, and colour the
      status; an exception from the request is rethrown with its message. */
  function Execute(site: string, fetch: Fetcher, current: ConsoleColor): (r: Result<Report>)
    ensures r.Ok? <==> fetch(NormalizeUrl(site)).Returned?
    ensures r.Failure? ==> r.error == Raised(fetch(NormalizeUrl(site)).message)
    ensures r.Ok? ==> r.value.url == NormalizeUrl(site)
    ensures r.Ok? ==> HasProtocol(r.value.url) && fetch(r.value.url) == Returned(r.value.info)
    ensures r.Ok? && 100 <= r.value.info.statusCode < 600 ==>
              r.value.color == ClassColor(Classify(r.value.info.statusCode).value)
    ensures r.Ok? && !(100 <= r.value.info.statusCode < 600) ==> r.value.color == current
  {
    var url := NormalizeUrl(site);
    match fetch(url)
    case Threw(m) => Failure(Raised(m))
    case Returned(info) => Ok(Report(url, info, StatusColor(info.statusCode, current)))
  }
}
