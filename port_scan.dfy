/**
 * The port scanner: the checks `startPortScan` makes before any probe is sent,
 * the walk of `performPortScan` over the ports in batches of ten, and the
 * table of well-known service names. The probes themselves (a WebSocket, then
 * an HTTP `HEAD` request, under timers) are left out: their settled outcomes
 * are given to the scan, one per port, in port order.
 */
module PortScan {

  import opened Common
  import opened Text
  import opened Address
  import opened PortSpec

  /** The most ports one scan may probe. */
  const MaxScanPorts := 5

  /** How many probes `performPortScan` starts at once. */
  const BatchSize := 10

  /** The reason `startPortScan` gives for refusing to scan, in the order the checks are made. */
  datatype ScanRejection =
    | EmptyTarget
    | PrivateTarget
    | EmptyPorts
    | NoValidPorts
    | TooManyPorts

  /** An admitted scan: the trimmed target and the parsed ports. */
  datatype ScanRequest = ScanRequest(target: string, ports: seq<int>)

  /**
   * The checks of `startPortScan`, on the two input texts, each trimmed: an
   * empty target, a private target, an empty port text, a port text naming no
   * valid port, more than five ports. The first that applies refuses the scan.
   */
  function AdmitScan(targetInput: string, portsInput: string): Result<ScanRequest, ScanRejection>
  {
    var target := Trim(targetInput);
    var customPorts := Trim(portsInput);
    if target == [] then Err(EmptyTarget)
    else if IsPrivateIP(target) then Err(PrivateTarget)
    else if customPorts == [] then Err(EmptyPorts)
    else
      var ports := ParsedPorts(customPorts);
      if |ports| == 0 then Err(NoValidPorts)
      else if |ports| > MaxScanPorts then Err(TooManyPorts)
      else Ok(ScanRequest(target, ports))
  }

  /**
   * A scan is admitted exactly when the trimmed target is non-empty and not
   * private and the trimmed port text names one to five ports; the admitted
   * ports are then strictly ascending and within 1..65535.
   */
  lemma AdmitScanAccepts(targetInput: string, portsInput: string)
    ensures AdmitScan(targetInput, portsInput).Ok? <==>
      Trim(targetInput) != [] && !IsPrivateIP(Trim(targetInput)) && Trim(portsInput) != [] &&
      1 <= |ParsedPorts(Trim(portsInput))| <= MaxScanPorts
    ensures AdmitScan(targetInput, portsInput).Ok? ==>
      var request := AdmitScan(targetInput, portsInput).value;
      request.target == Trim(targetInput) && request.ports == ParsedPorts(Trim(portsInput)) &&
      StrictlyAscending(request.ports) && forall p :: p in request.ports ==> InPortRange(p)
  {
    ParsedPortsAscendingInRange(Trim(portsInput));
  }

  /**
   * Each refusal is given exactly when every earlier check passed and its own
   * check fails: the checks run in the order of `startPortScan`.
   */
  lemma AdmitScanRejectsInOrder(targetInput: string, portsInput: string)
    ensures AdmitScan(targetInput, portsInput) == Err(EmptyTarget) <==> Trim(targetInput) == []
    ensures AdmitScan(targetInput, portsInput) == Err(PrivateTarget) <==>
      Trim(targetInput) != [] && IsPrivateIP(Trim(targetInput))
    ensures AdmitScan(targetInput, portsInput) == Err(EmptyPorts) <==>
      Trim(targetInput) != [] && !IsPrivateIP(Trim(targetInput)) && Trim(portsInput) == []
    ensures AdmitScan(targetInput, portsInput) == Err(NoValidPorts) <==>
      Trim(targetInput) != [] && !IsPrivateIP(Trim(targetInput)) && Trim(portsInput) != [] &&
      ParsedPorts(Trim(portsInput)) == []
    ensures AdmitScan(targetInput, portsInput) == Err(TooManyPorts) <==>
      Trim(targetInput) != [] && !IsPrivateIP(Trim(targetInput)) && Trim(portsInput) != [] &&
      |ParsedPorts(Trim(portsInput))| > MaxScanPorts
  {
  }

  // ---------------------------------------------------------------------------
  // Service names

  /** The table of `getServiceName`. */
  const Services: map<int, string> := map[
    21 := "FTP", 22 := "SSH", 23 := "Telnet", 25 := "SMTP", 53 := "DNS", 80 := "HTTP",
    110 := "POP3", 143 := "IMAP", 443 := "HTTPS", 993 := "IMAPS", 995 := "POP3S",
    3000 := "Dev Server", 3001 := "Dev Server", 8080 := "HTTP Alt", 8443 := "HTTPS Alt",
    9000 := "Dev Server"]

  /** `getServiceName`: the name in the table, `Unknown` for a port the table lacks. */
  function ServiceName(port: int): string
  {
    if port in Services then Services[port] else "Unknown"
  }

  /**
   * `Unknown` is given exactly for the ports the table lacks, because no name
   * in the table is empty (the `||` fallback never hides an entry) or `Unknown`.
   */
  lemma ServiceNameUnknown(port: int)
    ensures ServiceName(port) == "Unknown" <==> port !in Services
    ensures ServiceName(port) != []
  {
  }

  // ---------------------------------------------------------------------------
  // performPortScan

  /** The status of a port in a scan record. */
  datatype PortStatus = Open | Closed

  /** The settled outcome of `scanPort` for one port. */
  datatype ProbeOutcome =
    | Answered(status: PortStatus, responseTime: int)
    | Failed

  /** One record of the scan: `{port, status, service, responseTime}`, with `null` as `None`. */
  datatype PortResult = PortResult(port: int, status: PortStatus, service: string, responseTime: Option<int>)

  /** One call of `updateProgress(completed, total)`. */
  datatype Progress = Progress(completed: int, total: int)

  /**
   * `performPortScan`: takes the ports ten at a time; for each port of a batch,
   * in order, records the probe's status and response time, or `Closed` with no
   * response time when the probe failed, with the service name, and reports
   * the progress.
   */
  method PerformPortScan(ports: seq<int>, outcomes: seq<ProbeOutcome>)
    returns (results: seq<PortResult>, progress: seq<Progress>)
    requires |outcomes| == |ports|
    ensures |results| == |ports|
    ensures forall k :: 0 <= k < |ports| ==>
      results[k].port == ports[k] && results[k].service == ServiceName(ports[k])
    ensures forall k :: 0 <= k < |ports| ==> outcomes[k].Answered? ==>
      results[k].status == outcomes[k].status && results[k].responseTime == Some(outcomes[k].responseTime)
    ensures forall k :: 0 <= k < |ports| ==> outcomes[k].Failed? ==>
      results[k].status == Closed && results[k].responseTime == None
    ensures |progress| == |ports| && forall k :: 0 <= k < |ports| ==> progress[k] == Progress(k + 1, |ports|)
  {
    results := [];
    progress := [];
    var completed := 0;
    var i := 0;
    while i < |ports|
      invariant 0 <= i
      invariant completed == |results| == |progress| == Min(i, |ports|)
      invariant forall k :: 0 <= k < completed ==> results[k] == RecordFor(ports[k], outcomes[k])
      invariant forall k :: 0 <= k < completed ==> progress[k] == Progress(k + 1, |ports|)
    {
      var end := Min(i + BatchSize, |ports|);
      var batch := ports[i..end];
      var batchResults := outcomes[i..end];
      var j := 0;
      while j < |batchResults|
        invariant 0 <= j <= |batchResults|
        invariant completed == |results| == |progress| == i + j
        invariant forall k :: 0 <= k < completed ==> results[k] == RecordFor(ports[k], outcomes[k])
        invariant forall k :: 0 <= k < completed ==> progress[k] == Progress(k + 1, |ports|)
      {
        var port := batch[j];
        var result := batchResults[j];
        assert port == ports[i + j] && result == outcomes[i + j];
        match result {
          case Answered(status, responseTime) =>
            results := results + [PortResult(port, status, ServiceName(port), Some(responseTime))];
          case Failed =>
            results := results + [PortResult(port, Closed, ServiceName(port), None)];
        }
        completed := completed + 1;
        progress := progress + [Progress(completed, |ports|)];
        j := j + 1;
      }
      assert completed == Min(i + BatchSize, |ports|);
      i := i + BatchSize;
    }
  }

  /** The record made for one port from its probe's outcome. */
  function RecordFor(port: int, outcome: ProbeOutcome): PortResult
  {
    match outcome
    case Answered(status, responseTime) => PortResult(port, status, ServiceName(port), Some(responseTime))
    case Failed => PortResult(port, Closed, ServiceName(port), None)
  }
}
