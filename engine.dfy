/**
 * The driver in main.go: the port-80 TLS normalisation (main.go:44-46), the
 * rounds of probing that narrow the candidate list (main.go:56-127) and the
 * optional download-speed phase (main.go:130-177).
 *
 * The network is an input: `observe` answers each trace request and
 * `download` each download, keyed by where in the run the request is made.
 * The goroutines of a round run here one after another, each to completion
 * before the next one is started; the round's channel ends up with the same
 * elements in any interleaving. The model takes the arrival order to be the
 * candidate order; the order of equal keys after the sort depends on the
 * arrival order, and no contract here depends on it.
 */
module Engine {
  import opened Locations
  import opened Probe
  import opened Sorting
  import opened Channels
  import AddressList

  /** The flags the engine reads (main.go:24-32). */
  datatype Config = Config(
    port: int, quickmode: int, maxThreads: int, maxPing: int,
    rounds: int, speedTest: int, enableTLS: bool, revertcolo: string)

  /** A trace request: the round, the position in that round's candidate list, and where it goes. */
  datatype Request = Request(round: nat, index: nat, ip: string, port: int, tls: bool)

  /** A download started by speed worker `worker` for entry `index` of the final list. */
  datatype SpeedRequest = SpeedRequest(worker: nat, index: nat, ip: string, port: int, tls: bool)

  /** `speedtestresult`: a probe result and its download speed, zero until measured. */
  datatype SpeedResult = SpeedResult(result: Result, downloadSpeed: real)

  /**
   * How the program ends: with a result list, with a panic (`make` of a
   * channel with negative capacity), or with every goroutine that does the
   * work blocked forever (the Go runtime may report a fatal deadlock).
   */
  datatype Outcome = Finished(results: seq<SpeedResult>) | Panicked | Deadlocked

  /** One round: its number, the addresses it probed and the list it published. */
  datatype RoundRecord = RoundRecord(round: nat, probed: seq<string>, published: seq<SpeedResult>)

  /**
   * What every probe of a run shares: the port, the TLS setting, the two
   * filters and the probe itself, which gives the result for a request.
   */
  datatype Settings = Settings(
    port: int, tls: bool, revertcolo: string, maxPing: int, probe: Request -> Result)

  /**
   * The probe each goroutine runs (main.go:100): `CheckColoAndPing` with the
   * run's filters and location map, on what the network answered.
   */
  function Prober(revertcolo: string, maxPing: int, locationMap: map<string, Location>,
                  observe: Request -> Observation): Request -> Result
  {
    (req: Request) => CheckColoAndPing(req.ip, req.port, revertcolo, maxPing, locationMap, observe(req))
  }

  /** Port 80 is plain HTTP: TLS is switched off there whatever the flag says. */
  function EffectiveTLS(port: int, enableTLS: bool): (tls: bool)
    ensures port == 80 ==> !tls
    ensures port != 80 ==> tls == enableTLS
  {
    if port == 80 then false else enableTLS
  }

  // ---------------------------------------------------------------------
  // One round
  // ---------------------------------------------------------------------

  /** The result of the goroutine that probes candidate `k` of round `round`. */
  function ProbeAt(s: Settings, round: nat, ips: seq<string>, k: nat): Result
    requires k < |ips|
  {
    s.probe(Request(round, k, ips[k], s.port, s.tls))
  }

  /** The results of probing every candidate of round `round`, in candidate order. */
  function Probes(s: Settings, round: nat, ips: seq<string>): (rs: seq<Result>)
    ensures |rs| == |ips|
  {
    seq(|ips|, k requires 0 <= k < |ips| => ProbeAt(s, round, ips, k))
  }

  /**
   * The results with a non-empty latency among the first `n` of `rs`, in
   * their order (main.go:101-103).
   */
  function Survivors(rs: seq<Result>, n: nat): (r: seq<Result>)
    requires n <= |rs|
    ensures |r| <= n
  {
    if n == 0 then []
    else Survivors(rs, n - 1) + (if rs[n - 1].latency != "" then [rs[n - 1]] else [])
  }

  /** A result survives exactly when it is one of the results and has a latency. */
  lemma {:induction false} SurvivorsExactly(rs: seq<Result>, n: nat, x: Result)
    requires n <= |rs|
    ensures x in Survivors(rs, n) <==> x.latency != "" && exists k :: 0 <= k < n && rs[k] == x
  {
    if n > 0 {
      SurvivorsExactly(rs, n - 1, x);
      if x.latency != "" && rs[n - 1] != x {
        if exists k :: 0 <= k < n && rs[k] == x {
          var k :| 0 <= k < n && rs[k] == x;
          assert k < n - 1;
        }
      }
    }
  }

  /** What every survivor satisfies: it answered, it is one of the candidates, and it passed the filters. */
  predicate Kept(s: Settings, ips: seq<string>, x: Result) {
    x.latency != "" && x.ip in ips && x.port == s.port && x.respTime == 0
    && (s.revertcolo != "" ==> x.dataCenter != s.revertcolo)
    && (s.maxPing > 0 ==> x.tcpDuration <= s.maxPing)
  }

  /** A result with a latency for request `req` echoes its address and port and passed the filters. */
  predicate Passed(s: Settings, req: Request, x: Result) {
    x.latency != "" ==>
      x.ip == req.ip && x.port == req.port && x.respTime == 0
      && (s.revertcolo != "" ==> x.dataCenter != s.revertcolo)
      && (s.maxPing > 0 ==> x.tcpDuration <= s.maxPing)
  }

  /** The probe of `s` only lets through results that passed the filters of `s`. */
  ghost predicate Filtering(s: Settings) {
    forall req :: Passed(s, req, s.probe(req))
  }

  /** `CheckColoAndPing` applies the filters it is given. */
  lemma ProberFilters(s: Settings, locationMap: map<string, Location>, observe: Request -> Observation)
    requires s.probe == Prober(s.revertcolo, s.maxPing, locationMap, observe)
    ensures Filtering(s)
  {
    forall req
      ensures Passed(s, req, s.probe(req))
    {
      var x := CheckColoAndPing(req.ip, req.port, s.revertcolo, s.maxPing, locationMap, observe(req));
      assert s.probe(req) == x;
    }
  }

  /** A probe of a round that yields a latency yields one of the round's candidates, filtered. */
  lemma ProbeKept(s: Settings, round: nat, ips: seq<string>, k: nat)
    requires Filtering(s) && k < |ips|
    ensures var x := Probes(s, round, ips)[k]; x.latency != "" ==> Kept(s, ips, x)
  {
    var req := Request(round, k, ips[k], s.port, s.tls);
    assert Passed(s, req, s.probe(req));
  }

  /** A survivor of a round is one of its candidates, on the run's port, that passed the filters. */
  lemma SurvivorsKept(s: Settings, round: nat, ips: seq<string>, x: Result)
    requires Filtering(s)
    requires x in Survivors(Probes(s, round, ips), |ips|)
    ensures Kept(s, ips, x)
  {
    var rs := Probes(s, round, ips);
    SurvivorsExactly(rs, |ips|, x);
    var k :| 0 <= k < |ips| && rs[k] == x;
    ProbeKept(s, round, ips, k);
  }

  /** `speedtestresult{Result: res}` for each survivor: download speed zero. */
  function Unmeasured(rs: seq<Result>): (r: seq<SpeedResult>)
    ensures |r| == |rs|
    ensures forall i :: 0 <= i < |rs| ==> r[i] == SpeedResult(rs[i], 0.0)
  {
    seq(|rs|, i requires 0 <= i < |rs| => SpeedResult(rs[i], 0.0))
  }

  function TcpKey(r: SpeedResult): real {
    r.result.tcpDuration as real
  }

  /** Ascending TCP connect time, the order `sort.Slice` establishes at main.go:122-124. */
  ghost predicate ByConnectTime(s: seq<SpeedResult>) {
    forall i, j :: 0 <= i < j < |s| ==> s[i].result.tcpDuration <= s[j].result.tcpDuration
  }

  /** A published list: the survivors, each once, ordered by connect time (ties in any order). */
  ghost predicate Ranked(published: seq<SpeedResult>, survivors: seq<Result>) {
    ByConnectTime(published) && multiset(published) == multiset(Unmeasured(survivors))
  }

  /** A round's record is what probing its candidates publishes. */
  ghost predicate RoundRanked(s: Settings, rec: RoundRecord) {
    Ranked(rec.published, Survivors(Probes(s, rec.round, rec.probed), |rec.probed|))
  }

  /**
   * Lines 78-108: one goroutine per candidate, at most `maxThreads` holding a
   * `thread` slot at a time, each sending its result into `resultChan` when
   * the latency is non-empty. A zero capacity semaphore blocks the first
   * acquire forever. The result channel, sized `len(ips)`, never fills.
   */
  method FanOut(s: Settings, round: nat, ips: seq<string>, maxThreads: nat)
    returns (deadlocked: bool, resultChan: Channel<Result>)
    ensures fresh(resultChan) && resultChan.Valid() && resultChan.cap == |ips|
    ensures deadlocked <==> maxThreads == 0 && ips != []
    ensures !deadlocked ==> resultChan.buf == Survivors(Probes(s, round, ips), |ips|)
  {
    ghost var rs := Probes(s, round, ips);
    resultChan := new Channel<Result>(|ips|);
    var thread := new Channel<()>(maxThreads);
    for k := 0 to |ips|
      invariant fresh(resultChan) && resultChan.Valid() && resultChan.cap == |ips|
      invariant resultChan.buf == Survivors(rs, k)
      invariant thread.Valid() && thread.cap == maxThreads && thread.buf == []
      invariant k > 0 ==> maxThreads > 0
    {
      if thread.Full() {
        return true, resultChan;
      }
      thread.Send(());
      var res := ProbeAt(s, round, ips, k);
      assert res == rs[k];
      if res.latency != "" {
        resultChan.Send(res);
      }
      var slot := thread.Receive();
    }
    deadlocked := false;
  }

  lemma ConnectTimeOrder(s: seq<SpeedResult>)
    requires SortedBy(s, TcpKey)
    ensures ByConnectTime(s)
  {
    forall i, j | 0 <= i < j < |s|
      ensures s[i].result.tcpDuration <= s[j].result.tcpDuration
    {
      assert TcpKey(s[i]) <= TcpKey(s[j]);
    }
  }

  /** Lines 116-124: drain the closed channel and sort by connect time. */
  method Publish(ch: Channel<Result>) returns (published: seq<SpeedResult>)
    requires ch.Valid()
    modifies ch
    ensures Ranked(published, old(ch.buf))
    ensures ch.Valid() && ch.buf == []
  {
    var results := ch.Drain();
    var a := new SpeedResult[|results|](i requires 0 <= i < |results| => SpeedResult(results[i], 0.0));
    assert a[..] == Unmeasured(results);
    SortByKey(a, TcpKey);
    published := a[..];
    ConnectTimeOrder(published);
  }

  /** The addresses of a result list, in its order. */
  function IPsOf(rs: seq<SpeedResult>): (ips: seq<string>)
    ensures |ips| == |rs|
    ensures forall i :: 0 <= i < |rs| ==> ips[i] == rs[i].result.ip
  {
    seq(|rs|, i requires 0 <= i < |rs| => rs[i].result.ip)
  }

  /** Lines 70-74: the next round's candidates are the previous list's addresses, duplicates included. */
  method NextCandidates(finalResults: seq<SpeedResult>) returns (newIPs: seq<string>)
    ensures newIPs == IPsOf(finalResults)
  {
    newIPs := [];
    for n := 0 to |finalResults|
      invariant |newIPs| == n
      invariant forall i :: 0 <= i < n ==> newIPs[i] == finalResults[i].result.ip
    {
      newIPs := newIPs + [finalResults[n].result.ip];
    }
  }

  // ---------------------------------------------------------------------
  // The rounds
  // ---------------------------------------------------------------------

  function Final(trace: seq<RoundRecord>): seq<SpeedResult> {
    if trace == [] then [] else trace[|trace| - 1].published
  }

  /**
   * The rounds so far follow one another: round `k + 1` is at position `k`,
   * the first probes the address list read from the file, each later one the
   * addresses the previous one published, each publishes its own survivors
   * ranked, and only the last may have published nothing.
   */
  ghost predicate Chained(s: Settings, initial: seq<string>, trace: seq<RoundRecord>) {
    (trace != [] ==> trace[0].probed == initial)
    && (forall k :: 0 <= k < |trace| ==> trace[k].round == k + 1)
    && (forall k :: 0 < k < |trace| ==> trace[k].probed == IPsOf(trace[k - 1].published))
    && (forall k :: 0 <= k < |trace| - 1 ==> trace[k].published != [])
    && (forall rec :: rec in trace ==> RoundRanked(s, rec))
  }

  /**
   * The whole round loop: no rounds when `rounds` is not positive; otherwise
   * `rounds` rounds, or fewer when one of them had no survivors, which is
   * then the last one and leaves the final list empty.
   */
  ghost predicate Refined(s: Settings, rounds: int, initial: seq<string>, trace: seq<RoundRecord>) {
    Chained(s, initial, trace)
    && (rounds <= 0 ==> trace == [])
    && (rounds > 0 ==> 1 <= |trace| <= rounds && (|trace| == rounds || Final(trace) == []))
  }

  /** A round that follows the chain on the rules above extends it. */
  lemma ChainStep(s: Settings, initial: seq<string>, trace: seq<RoundRecord>, rec: RoundRecord)
    requires Chained(s, initial, trace)
    requires rec.round == |trace| + 1
    requires trace == [] ==> rec.probed == initial
    requires trace != [] ==> Final(trace) != [] && rec.probed == IPsOf(Final(trace))
    requires RoundRanked(s, rec)
    ensures Chained(s, initial, trace + [rec])
  {
    var t := trace + [rec];
    forall k | 0 <= k < |t|
      ensures t[k].round == k + 1
    {
      if k < |trace| {
        assert t[k] == trace[k];
      }
    }
    forall k | 0 < k < |t|
      ensures t[k].probed == IPsOf(t[k - 1].published)
    {
      assert t[k - 1] == trace[k - 1];
      if k < |trace| {
        assert t[k] == trace[k];
      }
    }
    forall k | 0 <= k < |t| - 1
      ensures t[k].published != []
    {
      assert t[k] == trace[k];
    }
  }

  /** A round publishes no more entries than it had candidates. */
  lemma PublishedLength(s: Settings, rec: RoundRecord)
    requires RoundRanked(s, rec)
    ensures |rec.published| <= |rec.probed|
  {
    var wrapped := Unmeasured(Survivors(Probes(s, rec.round, rec.probed), |rec.probed|));
    assert |rec.published| == |multiset(rec.published)| == |multiset(wrapped)| == |wrapped|;
  }

  /** Every entry a round publishes comes from that round's candidates, passed its filters and is unmeasured. */
  lemma PublishedKept(s: Settings, rec: RoundRecord)
    requires Filtering(s)
    requires RoundRanked(s, rec)
    ensures forall x :: x in rec.published ==> x.downloadSpeed == 0.0 && Kept(s, rec.probed, x.result)
  {
    var survivors := Survivors(Probes(s, rec.round, rec.probed), |rec.probed|);
    var wrapped := Unmeasured(survivors);
    forall x | x in rec.published
      ensures x.downloadSpeed == 0.0 && Kept(s, rec.probed, x.result)
    {
      assert x in multiset(wrapped);
      var i :| 0 <= i < |wrapped| && wrapped[i] == x;
      assert survivors[i] in survivors;
      SurvivorsKept(s, rec.round, rec.probed, survivors[i]);
    }
  }

  /**
   * The candidates taken from a round's published list are some of that
   * round's own candidates, and no more of them than it had.
   */
  lemma NarrowingStep(s: Settings, prev: RoundRecord, next: seq<string>)
    requires Filtering(s) && RoundRanked(s, prev) && next == IPsOf(prev.published)
    ensures |next| <= |prev.probed|
    ensures forall ip :: ip in next ==> ip in prev.probed
  {
    PublishedLength(s, prev);
    PublishedKept(s, prev);
    forall ip | ip in next
      ensures ip in prev.probed
    {
      var i :| 0 <= i < |next| && next[i] == ip;
      assert prev.published[i] in prev.published;
    }
  }

  /**
   * A later round never probes an address the earlier one did not, and never
   * more candidates than the earlier one had.
   */
  lemma Narrowing(s: Settings, initial: seq<string>, trace: seq<RoundRecord>, k: nat)
    requires Filtering(s)
    requires Chained(s, initial, trace) && 0 < k < |trace|
    ensures |trace[k].probed| <= |trace[k - 1].probed|
    ensures forall ip :: ip in trace[k].probed ==> ip in trace[k - 1].probed
  {
    assert trace[k - 1] in trace;
    NarrowingStep(s, trace[k - 1], trace[k].probed);
  }

  /** Every round probes only addresses read from the file, and no more of them than were read. */
  lemma {:induction false} ProbedFromFile(s: Settings, initial: seq<string>, trace: seq<RoundRecord>, k: nat)
    requires Filtering(s)
    requires Chained(s, initial, trace) && k < |trace|
    ensures |trace[k].probed| <= |initial|
    ensures forall ip :: ip in trace[k].probed ==> ip in initial
  {
    if k > 0 {
      ProbedFromFile(s, initial, trace, k - 1);
      Narrowing(s, initial, trace, k);
    }
  }

  /**
   * The final list of the rounds holds only unmeasured results for addresses
   * read from the file, on the run's port, that passed the filters.
   */
  lemma FinalKept(s: Settings, initial: seq<string>, trace: seq<RoundRecord>)
    requires Filtering(s)
    requires Chained(s, initial, trace)
    ensures forall x :: x in Final(trace) ==> x.downloadSpeed == 0.0 && Kept(s, initial, x.result)
  {
    if trace != [] {
      var last := trace[|trace| - 1];
      assert last in trace;
      PublishedKept(s, last);
      ProbedFromFile(s, initial, trace, |trace| - 1);
    }
  }

  // ---------------------------------------------------------------------
  // The speed phase
  // ---------------------------------------------------------------------

  /** The list the first speed worker sends: every final entry with its download speed, in list order. */
  function Measured(finals: seq<SpeedResult>, tls: bool, download: SpeedRequest -> Download): (r: seq<SpeedResult>)
    ensures |r| == |finals|
    ensures forall k :: 0 <= k < |finals| ==> r[k].result == finals[k].result
  {
    seq(|finals|, k requires 0 <= k < |finals| =>
      var res := finals[k].result;
      SpeedResult(res, DownloadSpeed(download(SpeedRequest(0, k, res.ip, res.port, tls)))))
  }

  /** Every entry of a measured list was measured with the speed its download produced. */
  lemma MeasuredSpeeds(finals: seq<SpeedResult>, tls: bool, download: SpeedRequest -> Download, k: nat)
    requires k < |finals|
    ensures var d := download(SpeedRequest(0, k, finals[k].result.ip, finals[k].result.port, tls));
      Measured(finals, tls, download)[k].downloadSpeed == if d.Completed? then d.rate else 0.0
  {
  }

  function SpeedKey(r: SpeedResult): real {
    -r.downloadSpeed
  }

  /** Descending download speed, the order `sort.Slice` establishes at main.go:172-174. */
  ghost predicate FastestFirst(s: seq<SpeedResult>) {
    forall i, j :: 0 <= i < j < |s| ==> s[i].downloadSpeed >= s[j].downloadSpeed
  }

  /** Measuring changes no entry's probe result, so what held of the final list holds of the ranking. */
  lemma MeasuredKept(s: Settings, ips: seq<string>, finals: seq<SpeedResult>, tls: bool,
                     download: SpeedRequest -> Download, ranked: seq<SpeedResult>)
    requires forall y :: y in finals ==> Kept(s, ips, y.result)
    requires multiset(ranked) == multiset(Measured(finals, tls, download))
    ensures forall x :: x in ranked ==> Kept(s, ips, x.result)
  {
    var m := Measured(finals, tls, download);
    forall x | x in ranked
      ensures Kept(s, ips, x.result)
    {
      assert x in multiset(m);
      var k :| 0 <= k < |m| && m[k] == x;
      assert finals[k] in finals;
    }
  }

  lemma SpeedOrder(s: seq<SpeedResult>)
    requires SortedBy(s, SpeedKey)
    ensures FastestFirst(s)
  {
    forall i, j | 0 <= i < j < |s|
      ensures s[i].downloadSpeed >= s[j].downloadSpeed
    {
      assert SpeedKey(s[i]) <= SpeedKey(s[j]);
    }
  }

  /**
   * Lines 147-160: one speed worker measures every entry of the final list
   * and sends each into the channel. A worker that finds the channel full
   * blocks for good, since nobody receives before all workers are done.
   */
  method SpeedWorker(worker: nat, finals: seq<SpeedResult>, tls: bool, download: SpeedRequest -> Download,
                     resultChan: Channel<SpeedResult>)
    returns (blocked: bool)
    requires finals != [] && resultChan.Valid() && resultChan.cap == |finals|
    requires worker == 0 ==> resultChan.buf == []
    requires worker > 0 ==> resultChan.buf == Measured(finals, tls, download)
    modifies resultChan
    ensures resultChan.Valid()
    ensures blocked <==> worker > 0
    ensures !blocked ==> resultChan.buf == Measured(finals, tls, download)
  {
    ghost var measured := Measured(finals, tls, download);
    for k := 0 to |finals|
      invariant resultChan.Valid()
      invariant worker == 0 ==> resultChan.buf == measured[..k]
      invariant worker > 0 ==> k == 0 && resultChan.buf == measured
    {
      var res := finals[k].result;
      var downloadSpeed := DownloadSpeed(download(SpeedRequest(worker, k, res.ip, res.port, tls)));
      if resultChan.Full() {
        return true;
      }
      resultChan.Send(SpeedResult(res, downloadSpeed));
      assert measured[..k + 1] == measured[..k] + [measured[k]];
    }
    assert measured[..|finals|] == measured;
    blocked := false;
  }

  /**
   * Lines 132-176: `speedTest` workers, each over the whole final list, into
   * a channel of capacity `len(finalResults)` that is drained only after all
   * of them are done. Once `len(finalResults)` results are buffered every
   * further send blocks, so with two or more workers some worker never
   * finishes and the program deadlocks; which send blocks depends on the
   * schedule, and in the one-after-another schedule here it is the second
   * worker's first. With one worker the result is every final entry with
   * its measured speed, fastest first.
   */
  method SpeedPhase(finals: seq<SpeedResult>, speedTest: nat, maxThreads: nat, tls: bool,
                    download: SpeedRequest -> Download)
    returns (deadlocked: bool, ranked: seq<SpeedResult>)
    requires finals != [] && speedTest >= 1
    ensures deadlocked <==> maxThreads == 0 || speedTest >= 2
    ensures !deadlocked ==>
      FastestFirst(ranked) && multiset(ranked) == multiset(Measured(finals, tls, download))
  {
    var resultChan := new Channel<SpeedResult>(|finals|);
    var thread := new Channel<()>(maxThreads);
    for i := 0 to speedTest
      invariant i <= 1 && (i == 1 ==> maxThreads > 0)
      invariant resultChan.Valid() && resultChan.cap == |finals|
      invariant i == 0 ==> resultChan.buf == []
      invariant i == 1 ==> resultChan.buf == Measured(finals, tls, download)
      invariant thread.Valid() && thread.cap == maxThreads && thread.buf == []
    {
      if thread.Full() {
        return true, [];
      }
      thread.Send(());
      var blocked := SpeedWorker(i, finals, tls, download, resultChan);
      if blocked {
        return true, [];
      }
      var slot := thread.Receive();
    }
    deadlocked := false;
    var speedResults := resultChan.Drain();
    var a := new SpeedResult[|speedResults|](i requires 0 <= i < |speedResults| => speedResults[i]);
    assert a[..] == speedResults;
    SortByKey(a, SpeedKey);
    ranked := a[..];
    SpeedOrder(ranked);
  }

  // ---------------------------------------------------------------------
  // The program
  // ---------------------------------------------------------------------

  /** The speed phase runs when it is enabled and the rounds left something to measure (main.go:130). */
  predicate SpeedPhaseRuns(speedTest: int, trace: seq<RoundRecord>) {
    speedTest > 0 && Final(trace) != []
  }

  /**
   * Lines 66-127: the rounds, from the address list read from the file.
   * `make` panics at line 82 on a negative `maxThreads`; a zero one blocks
   * the first acquire of round 1 unless there is nothing to probe. Otherwise
   * the rounds run as `Refined` describes and `finalResults` is the last
   * round's list.
   */
  method Rounds(s: Settings, rounds: int, maxThreads: int, initial: seq<string>)
    returns (panicked: bool, deadlocked: bool, finalResults: seq<SpeedResult>, ghost trace: seq<RoundRecord>)
    ensures panicked <==> maxThreads < 0 && rounds >= 1
    ensures deadlocked <==> maxThreads == 0 && rounds >= 1 && initial != []
    ensures !panicked && !deadlocked ==> Refined(s, rounds, initial, trace) && finalResults == Final(trace)
    ensures finalResults != [] ==> maxThreads >= 1
  {
    var ips := initial;
    trace := [];
    finalResults := [];
    var currentRound := 1;
    while currentRound <= rounds
      invariant 1 <= currentRound <= (if rounds >= 1 then rounds + 1 else 1)
      invariant |trace| == currentRound - 1
      invariant Chained(s, initial, trace) && finalResults == Final(trace)
      invariant trace != [] ==> finalResults != []
      invariant currentRound == 1 ==> ips == initial
      invariant currentRound > 1 ==> maxThreads >= 1
      decreases rounds - currentRound
    {
      if currentRound > 1 {
        ips := NextCandidates(finalResults);
        finalResults := [];
      }
      if maxThreads < 0 {
        return true, false, [], trace;
      }
      var stuck, resultChan := FanOut(s, currentRound, ips, maxThreads);
      if stuck {
        return false, true, [], trace;
      }
      if resultChan.Len() == 0 {
        ChainStep(s, initial, trace, RoundRecord(currentRound, ips, []));
        trace := trace + [RoundRecord(currentRound, ips, [])];
        break;
      }
      var published := Publish(resultChan);
      var rec := RoundRecord(currentRound, ips, published);
      PublishedLength(s, rec);
      ChainStep(s, initial, trace, rec);
      trace := trace + [rec];
      finalResults := published;
      currentRound := currentRound + 1;
    }
    panicked, deadlocked := false, false;
  }

  /** The settings of a run: the flags, the TLS setting in force and the probe built from them. */
  function RunSettings(cfg: Config, tls: bool, locationMap: map<string, Location>,
                       observe: Request -> Observation): (s: Settings)
    ensures s.probe == Prober(s.revertcolo, s.maxPing, locationMap, observe)
  {
    Settings(cfg.port, tls, cfg.revertcolo, cfg.maxPing, Prober(cfg.revertcolo, cfg.maxPing, locationMap, observe))
  }

  /** The probe of a run filters by the run's own flags. */
  lemma RunFilters(cfg: Config, tls: bool, locationMap: map<string, Location>, observe: Request -> Observation)
    ensures Filtering(RunSettings(cfg, tls, locationMap, observe))
  {
    ProberFilters(RunSettings(cfg, tls, locationMap, observe), locationMap, observe);
  }

  /**
   * `main` from the flags to the list written out, with the address file's
   * lines as `lines`. `tls` is the TLS setting every request uses, `initial`
   * the address list read from the lines (`chunks` being its per-line parts)
   * and `trace` the rounds that ran.
   */
  method Run(cfg: Config, lines: seq<string>, locationMap: map<string, Location>,
             observe: Request -> Observation, download: SpeedRequest -> Download)
    returns (outcome: Outcome, ghost tls: bool, ghost initial: seq<string>,
             ghost chunks: seq<seq<string>>, ghost trace: seq<RoundRecord>)
    requires forall i :: 0 <= i < |lines| ==> AddressList.Covered(lines[i], cfg.quickmode)
    ensures tls == EffectiveTLS(cfg.port, cfg.enableTLS)
    ensures |chunks| == |lines| && initial == AddressList.Concat(chunks)
    ensures forall i :: 0 <= i < |lines| ==> AddressList.LineExpansion(lines[i], cfg.quickmode, chunks[i])
    ensures outcome.Panicked? <==> cfg.maxThreads < 0 && cfg.rounds >= 1
    ensures outcome.Finished? || cfg.maxThreads >= 1 ==>
      Refined(RunSettings(cfg, tls, locationMap, observe), cfg.rounds, initial, trace)
    ensures outcome.Deadlocked? <==>
      (cfg.maxThreads == 0 && cfg.rounds >= 1 && initial != [])
      || (cfg.maxThreads >= 1 && SpeedPhaseRuns(cfg.speedTest, trace) && cfg.speedTest >= 2)
    ensures outcome.Finished? && SpeedPhaseRuns(cfg.speedTest, trace) ==>
      FastestFirst(outcome.results)
      && multiset(outcome.results) == multiset(Measured(Final(trace), tls, download))
    ensures outcome.Finished? && !SpeedPhaseRuns(cfg.speedTest, trace) ==>
      outcome.results == Final(trace)
    ensures outcome.Finished? ==> forall x :: x in outcome.results ==>
      Kept(RunSettings(cfg, tls, locationMap, observe), initial, x.result)
  {
    var useTLS := EffectiveTLS(cfg.port, cfg.enableTLS);
    tls := useTLS;
    var s := RunSettings(cfg, useTLS, locationMap, observe);
    var ips;
    ips, chunks := AddressList.ReadIPs(lines, cfg.quickmode);
    initial := ips;
    var panicked, deadlocked, finalResults;
    panicked, deadlocked, finalResults, trace := Rounds(s, cfg.rounds, cfg.maxThreads, ips);
    if panicked {
      return Panicked, tls, initial, chunks, trace;
    }
    if deadlocked {
      return Deadlocked, tls, initial, chunks, trace;
    }
    RunFilters(cfg, useTLS, locationMap, observe);
    FinalKept(s, initial, trace);
    if cfg.speedTest > 0 && |finalResults| > 0 {
      var stuck, ranked := SpeedPhase(finalResults, cfg.speedTest, cfg.maxThreads, useTLS, download);
      if stuck {
        outcome := Deadlocked;
      } else {
        MeasuredKept(s, initial, finalResults, useTLS, download, ranked);
        outcome := Finished(ranked);
      }
    } else {
      outcome := Finished(finalResults);
    }
  }
}
