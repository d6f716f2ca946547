/**
 * The decision `CheckColoAndPing` takes once the trace request has been sent
 * (speedtest/httptest.go:69-103), and the failure branches of
 * `GetDownloadSpeed` (speedtest/httptest.go:107-153). The network exchange
 * itself is an input: whether the request failed, the status code, the body
 * (or a failure to read it) and the measured connect time in milliseconds.
 */
module Probe {
  import opened Optional
  import opened Locations
  import Text
  import Decimal

  /** `speedtest.Result`. */
  datatype Result = Result(
    ip: string, port: int, dataCenter: string, region: string, city: string,
    latency: string, tcpDuration: int, respTime: int)

  /** The zero `Result{}` that every rejection returns. */
  const EmptyResult := Result("", 0, "", "", "", "", 0, 0)

  /** What came back for the trace request. `body == None` means reading the body failed. */
  datatype Reply = RequestFailed | Replied(status: int, body: Option<string>)

  /** One probe as the network answered it: the reply and the connect time the trace hook measured. */
  datatype Observation = Observation(reply: Reply, connectTime: int)

  /** The text the trace page echoes back for the request's User-Agent header. */
  const Marker := "uag=Mozilla/5.0"

  const ColoKey := "colo="

  predicate IsUpper(c: char) {
    'A' <= c <= 'Z'
  }

  /** Position `i` starts a match of `colo=([A-Z]+)`: the key, then at least one capital. */
  predicate ColoAt(s: string, i: nat) {
    Text.OccursAt(s, ColoKey, i) && i + |ColoKey| < |s| && IsUpper(s[i + |ColoKey|])
  }

  /** The leftmost match position at or after `from`. */
  function FindColo(s: string, from: nat): (r: Option<nat>)
    requires from <= |s|
    ensures r.Some? ==> from <= r.value < |s| && ColoAt(s, r.value)
    ensures r.Some? ==> forall j :: from <= j < r.value ==> !ColoAt(s, j)
    ensures r.None? ==> forall j :: from <= j ==> !ColoAt(s, j)
    decreases |s| - from
  {
    if from == |s| then None
    else if ColoAt(s, from) then Some(from)
    else FindColo(s, from + 1)
  }

  /** The length of the run of capitals starting at `i`. */
  function UpperRun(s: string, i: nat): (n: nat)
    requires i <= |s|
    ensures i + n <= |s|
    ensures forall k :: i <= k < i + n ==> IsUpper(s[k])
    ensures i + n == |s| || !IsUpper(s[i + n])
    decreases |s| - i
  {
    if i < |s| && IsUpper(s[i]) then 1 + UpperRun(s, i + 1) else 0
  }

  /**
   * `regexp.MustCompile("colo=([A-Z]+)").FindStringSubmatch(body)[1]`: the
   * leftmost match, and in it the longest run of capitals (`+` is greedy).
   */
  function Colo(body: string): (r: Option<string>)
    ensures r.None? <==> forall j :: !ColoAt(body, j)
  {
    match FindColo(body, 0)
    case None => None
    case Some(i) =>
      var start := i + |ColoKey|;
      Some(body[start..start + UpperRun(body, start)])
  }

  /**
   * The extracted code is a non-empty run of capitals that directly follows
   * the leftmost `colo=` that has a capital after it, and the run is maximal.
   */
  lemma ColoMatch(body: string) returns (i: nat)
    requires Colo(body).Some?
    ensures ColoAt(body, i) && forall j :: 0 <= j < i ==> !ColoAt(body, j)
    ensures var start, code := i + |ColoKey|, Colo(body).value;
      |code| >= 1 && start + |code| <= |body| && body[start..start + |code|] == code
      && (forall k :: 0 <= k < |code| ==> IsUpper(code[k]))
      && (start + |code| == |body| || !IsUpper(body[start + |code|]))
  {
    i := FindColo(body, 0).value;
    var start := i + |ColoKey|;
    assert Colo(body).value == body[start..start + UpperRun(body, start)];
  }

  /** The conditions under which the probe keeps the address, in the order the source checks them. */
  predicate Accepted(obs: Observation, revertcolo: string, maxPing: int) {
    obs.reply.Replied? && obs.reply.status == 200 && obs.reply.body.Some?
    && !(maxPing > 0 && obs.connectTime > maxPing)
    && Text.Contains(obs.reply.body.value, Marker)
    && Colo(obs.reply.body.value).Some?
    && !(revertcolo != "" && Colo(obs.reply.body.value).value == revertcolo)
  }

  /** `fmt.Sprintf("%d ms", connecttime)`. */
  function LatencyText(ms: int): (s: string)
    ensures |s| >= 4 && s[|s| - 3..] == " ms"
  {
    Decimal.FromInt(ms) + " ms"
  }

  /**
   * `CheckColoAndPing` after the request: the empty result on a failed
   * request, a non-200 status, an unreadable body, a connect time above a
   * positive `maxPing`, a body without the marker or without a colo code, or
   * a code equal to a non-empty `revertcolo`; otherwise a result naming the
   * data centre, with region and city from the location map when the code is
   * in it and empty otherwise.
   */
  function CheckColoAndPing(ip: string, port: int, revertcolo: string, maxPing: int,
                            locationMap: map<string, Location>, obs: Observation): (r: Result)
    ensures r.latency != "" <==> Accepted(obs, revertcolo, maxPing)
    ensures !Accepted(obs, revertcolo, maxPing) ==> r == EmptyResult
    ensures maxPing > 0 && obs.connectTime > maxPing ==> r == EmptyResult
    ensures Accepted(obs, revertcolo, maxPing) ==>
      var code := Colo(obs.reply.body.value).value;
      r.ip == ip && r.port == port && r.dataCenter == code
      && r.region == (if code in locationMap then locationMap[code].region else "")
      && r.city == (if code in locationMap then locationMap[code].city else "")
      && r.latency == LatencyText(obs.connectTime)
      && r.tcpDuration == obs.connectTime && r.respTime == 0
  {
    match obs.reply
    case RequestFailed => EmptyResult
    case Replied(status, body) =>
      if status != 200 then EmptyResult
      else if body.None? then EmptyResult
      else if maxPing > 0 && obs.connectTime > maxPing then EmptyResult
      else if !Text.Contains(body.value, Marker) then EmptyResult
      else match Colo(body.value)
        case None => EmptyResult
        case Some(dataCenter) =>
          if revertcolo != "" && dataCenter == revertcolo then EmptyResult
          else if dataCenter in locationMap then
            var loc := locationMap[dataCenter];
            Result(ip, port, dataCenter, loc.region, loc.city, LatencyText(obs.connectTime), obs.connectTime, 0)
          else
            Result(ip, port, dataCenter, "", "", LatencyText(obs.connectTime), obs.connectTime, 0)
  }

  /** The latency text of a survivor reads back as its connect time. */
  lemma LatencyReadsBack(ms: nat)
    ensures var s := LatencyText(ms);
      Decimal.AllDigits(s[..|s| - 3]) && Decimal.Value(s[..|s| - 3]) == ms
  {
    var s := LatencyText(ms);
    assert s[..|s| - 3] == Decimal.FromNat(ms);
    Decimal.ValueFromNat(ms);
  }

  /** How a download attempt of `GetDownloadSpeed` went; `rate` is the measured kB/s. */
  datatype Download = DialFailed | RequestFailedAfterDial | Completed(rate: real)

  /** `GetDownloadSpeed`: 0 when the dial or the request fails, the measured rate otherwise. */
  function DownloadSpeed(d: Download): (speed: real)
    ensures d.Completed? ==> speed == d.rate
    ensures !d.Completed? ==> speed == 0.0
  {
    match d
    case DialFailed => 0.0
    case RequestFailedAfterDial => 0.0
    case Completed(rate) => rate
  }
}
