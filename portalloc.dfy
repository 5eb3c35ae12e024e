/**
 * The port prober of the portalloc package (portalloc.go).
 *
 * The socket calls are not modelled: a Host answers, for every port number,
 * how net.ResolveTCPAddr, net.ListenTCP, l.Addr() and l.Close() behave when
 * that port is probed. On top of this oracle the module models
 *   - Alloc, which classifies those outcomes into a port and an error,
 *   - AllocInSlice and AllocInRange, which probe their candidates in order,
 *     skip busy ports and abort on any other error,
 * and proves the package's promises about them.
 */
module PortAlloc {
  import opened Wrappers
  import opened Errors

  const MaxUint64: int := 0xFFFF_FFFF_FFFF_FFFF

  /** Go's uint64, the type of every port number in the package. */
  type Uint64 = x: int | 0 <= x <= MaxUint64

  /** The largest TCP port number. */
  const MaxTcpPort: int := 65535

  /** The address l.Addr() hands back on a listening socket: a *net.TCPAddr
      with its port, or an address of some other type. */
  datatype ListenAddr = TcpAddr(port: Uint64) | OtherAddr

  /** How the host answers one probe of a port. */
  datatype ProbeOutcome =
    | ResolveFailed(resolveErr: OsError)   // net.ResolveTCPAddr failed
    | ListenFailed(listenErr: OsError)     // net.ListenTCP failed
    | Listening(addr: ListenAddr, closeErr: Option<OsError>)
      // net.ListenTCP succeeded; what l.Addr() returns and whether l.Close() fails

  /** The host for the duration of one call: its answer for every port. */
  type Host = Uint64 -> ProbeOutcome

  /** The two results of Alloc: the port and the (possibly nil) error. */
  datatype AllocResult = AllocResult(port: Uint64, err: Option<Error>)

  /** The two results of AllocInSlice and AllocInRange: the (possibly nil)
      list of free ports and the (possibly nil) error. */
  datatype BatchResult = BatchResult(freePorts: Option<seq<Uint64>>, err: Option<Error>)

  /* ---------------------------------------------------------------------- */
  /* Alloc                                                                   */
  /* ---------------------------------------------------------------------- */

  /** Alloc(port): resolve ":port", listen on it, read the bound port back,
      and close the listener again. Every failure before the read-back
      returns port 0; only a read-back *net.TCPAddr yields another port. */
  function Alloc(host: Host, port: Uint64): (r: AllocResult)
    ensures r.port != 0 ==> host(port).Listening? && host(port).addr.TcpAddr?
    ensures host(port).Listening? && host(port).addr.TcpAddr? ==> r.port == host(port).addr.port
    ensures r.err.None? ==> host(port).Listening? && host(port).closeErr.None?
  {
    match host(port)
    case ResolveFailed(resolveErr) =>
      AllocResult(0, Some(Wrapped(ResolveAddr, Os(resolveErr))))
    case ListenFailed(listenErr) =>
      if listenErr.AddrInUse? then AllocResult(0, Some(PortIsBusy))
      else AllocResult(0, Some(Wrapped(AllocatePort, Os(listenErr))))
    case Listening(addr, closeErr) =>
      var returned :=
        if addr.TcpAddr? then AllocResult(addr.port, None)
        else AllocResult(0, Some(Message(ConvertAddr)));
      DeferredClose(returned, closeErr)
  }

  /** The closure Alloc defers once the listener exists: it runs after the
      return values are set and joins a failure of l.Close() onto the error
      result, leaving the port result alone. */
  function DeferredClose(returned: AllocResult, closeErr: Option<OsError>): (r: AllocResult)
    ensures r.port == returned.port
    ensures closeErr.None? ==> r.err == returned.err
    ensures closeErr.Some? ==> r.err.Some? && Is(r.err.value, Os(closeErr.value))
    ensures closeErr.Some? ==> forall t: Error :: !t.Joined? ==>
      (Is(r.err.value, t) <==> IsSome(returned.err, t) || Is(Os(closeErr.value), t))
  {
    match closeErr
    case None => returned
    case Some(c) =>
      var r := AllocResult(returned.port, Join([returned.err, Some(Os(c))]));
      assert IsSome([returned.err, Some(Os(c))][1], Os(c));
      r
  }

  /** errors.Is(err, ErrPortIsBusy): the batch loops skip such a port. */
  predicate IsBusy(err: Option<Error>) {
    IsSome(err, PortIsBusy)
  }

  /** err != nil && !errors.Is(err, ErrPortIsBusy): the batch loops abort. */
  predicate IsFatal(err: Option<Error>) {
    err.Some? && !Is(err.value, PortIsBusy)
  }

  /** Every result of a probe is exactly one of: nil (the port is kept),
      busy (the port is skipped) or fatal (the batch aborts). */
  lemma ErrorClassification(err: Option<Error>)
    ensures err.None? || IsBusy(err) || IsFatal(err)
    ensures !(IsBusy(err) && IsFatal(err))
    ensures err.None? ==> !IsBusy(err) && !IsFatal(err)
  {
  }

  /** The probe of port makes a batch abort. */
  predicate ProbeIsFatal(host: Host, port: Uint64) {
    IsFatal(Alloc(host, port).err)
  }

  /** Alloc reports ErrPortIsBusy exactly when listening fails with
      address-in-use, and then it reports that sentinel itself and port 0. */
  lemma AllocBusyIffAddrInUse(host: Host, port: Uint64)
    ensures IsBusy(Alloc(host, port).err) <==> host(port) == ListenFailed(AddrInUse)
    ensures IsBusy(Alloc(host, port).err) ==> Alloc(host, port) == AllocResult(0, Some(PortIsBusy))
  {
    var outcome := host(port);
    if outcome.ResolveFailed? {
      OsErrorIsNoSentinel(outcome.resolveErr, ResolveAddr, 1);
    } else if outcome.ListenFailed? {
      OsErrorIsNoSentinel(outcome.listenErr, AllocatePort, 1);
    } else {
      var returned :=
        if outcome.addr.TcpAddr? then AllocResult(outcome.addr.port, None)
        else AllocResult(0, Some(Message(ConvertAddr)));
      assert !IsSome(returned.err, PortIsBusy);
      if outcome.closeErr.Some? {
        OsErrorIsNoSentinel(outcome.closeErr.value, ResolveAddr, 0);
      }
    }
  }

  /** A resolve failure (port 100000, say) gives port 0 and an error that
      wraps the resolver's error and is not ErrPortIsBusy. */
  lemma AllocResolveFailure(host: Host, port: Uint64)
    requires host(port).ResolveFailed?
    ensures Alloc(host, port).port == 0
    ensures IsFatal(Alloc(host, port).err)
    ensures Is(Alloc(host, port).err.value, Os(host(port).resolveErr))
  {
    OsErrorIsNoSentinel(host(port).resolveErr, ResolveAddr, 1);
  }

  /** A listen failure other than address-in-use gives port 0 and an error
      that wraps the listener's error and is not ErrPortIsBusy. */
  lemma AllocListenFailure(host: Host, port: Uint64)
    requires host(port).ListenFailed? && !host(port).listenErr.AddrInUse?
    ensures Alloc(host, port).port == 0
    ensures IsFatal(Alloc(host, port).err)
    ensures Is(Alloc(host, port).err.value, Os(host(port).listenErr))
  {
    OsErrorIsNoSentinel(host(port).listenErr, AllocatePort, 1);
  }

  /** When the bound address is not a *net.TCPAddr, Alloc gives port 0 and
      the conversion error, joined with the close error if closing failed
      too; none of this is ErrPortIsBusy. */
  lemma AllocReadBackFailure(host: Host, port: Uint64)
    requires host(port).Listening? && host(port).addr.OtherAddr?
    ensures Alloc(host, port).port == 0
    ensures IsFatal(Alloc(host, port).err)
    ensures Is(Alloc(host, port).err.value, Message(ConvertAddr))
    ensures host(port).closeErr.Some? ==> Is(Alloc(host, port).err.value, Os(host(port).closeErr.value))
  {
    AllocBusyIffAddrInUse(host, port);
  }

  /** Alloc succeeds (nil error) exactly when listening succeeds, the bound
      address is a *net.TCPAddr and closing succeeds; it then returns the
      bound port. */
  lemma AllocSuccessIff(host: Host, port: Uint64)
    ensures Alloc(host, port).err.None? <==>
      host(port).Listening? && host(port).addr.TcpAddr? && host(port).closeErr.None?
    ensures Alloc(host, port).err.None? ==> Alloc(host, port).port == host(port).addr.port
  {
  }

  /** A failing l.Close() after a successful bind keeps the bound port as
      the port result, and makes the error non-nil, not ErrPortIsBusy, and
      a wrapper of the close error. */
  lemma AllocCloseFailure(host: Host, port: Uint64)
    requires host(port).Listening? && host(port).addr.TcpAddr? && host(port).closeErr.Some?
    ensures Alloc(host, port).port == host(port).addr.port
    ensures IsFatal(Alloc(host, port).err)
    ensures Is(Alloc(host, port).err.value, Os(host(port).closeErr.value))
  {
    AllocBusyIffAddrInUse(host, port);
  }

  /* ---------------------------------------------------------------------- */
  /* A host that behaves like a real one                                     */
  /* ---------------------------------------------------------------------- */

  /** What the package expects of the operating system: resolving ":port"
      fails exactly for port numbers above 65535, a socket listening on a
      non-zero port reports that port, and one listening on port 0 reports
      a port the OS picked in 1..65535. */
  ghost predicate HonestHost(host: Host) {
    forall port: Uint64 ::
      && (host(port).ResolveFailed? <==> port > MaxTcpPort)
      && (host(port).Listening? && host(port).addr.TcpAddr? ==>
            if port == 0 then 0 < host(port).addr.port <= MaxTcpPort
            else host(port).addr.port == port)
  }

  /** On an honest host a successful Alloc of a non-zero port returns that
      very port, and of port 0 some port in 1..65535. */
  lemma HonestAllocReturnsRequested(host: Host, port: Uint64)
    requires HonestHost(host) && Alloc(host, port).err.None?
    ensures port != 0 ==> Alloc(host, port).port == port
    ensures port == 0 ==> 0 < Alloc(host, port).port <= MaxTcpPort
  {
    AllocSuccessIff(host, port);
  }

  /** On an honest host a port number above 65535 (100000, say) is never
      reported busy: its probe fails at resolution and aborts a batch. */
  lemma HonestOutOfRangeIsFatal(host: Host, port: Uint64)
    requires HonestHost(host) && port > MaxTcpPort
    ensures !IsBusy(Alloc(host, port).err) && ProbeIsFatal(host, port)
    ensures Is(Alloc(host, port).err.value, Os(host(port).resolveErr))
  {
    AllocResolveFailure(host, port);
  }

  /* ---------------------------------------------------------------------- */
  /* The collect-all policy: specification                                   */
  /* ---------------------------------------------------------------------- */

  /** The ports a batch appends when none of its probes is fatal: the port
      result of every probe with a nil error, in candidate order. */
  function FilterFree(host: Host, ports: seq<Uint64>): (free: seq<Uint64>)
    ensures |free| <= |ports|
  {
    if ports == [] then []
    else
      var last := Alloc(host, ports[|ports| - 1]);
      FilterFree(host, ports[..|ports| - 1]) + (if last.err.None? then [last.port] else [])
  }

  /** The positions of the candidates whose probe has a nil error, ascending. */
  function FreeIndices(host: Host, ports: seq<Uint64>): (idx: seq<nat>)
    ensures forall j :: 0 <= j < |idx| ==> idx[j] < |ports| && Alloc(host, ports[idx[j]]).err.None?
    ensures forall j, k :: 0 <= j < k < |idx| ==> idx[j] < idx[k]
    ensures forall i :: 0 <= i < |ports| && Alloc(host, ports[i]).err.None? ==> i in idx
  {
    if ports == [] then []
    else
      var n := |ports| - 1;
      FreeIndices(host, ports[..n]) + (if Alloc(host, ports[n]).err.None? then [n] else [])
  }

  /** The position of the first candidate whose probe is fatal, if any. */
  function FirstFatal(host: Host, ports: seq<Uint64>): (k: Option<nat>)
    ensures k.None? <==> forall i :: 0 <= i < |ports| ==> !ProbeIsFatal(host, ports[i])
    ensures k.Some? ==> k.value < |ports| && ProbeIsFatal(host, ports[k.value])
    ensures k.Some? ==> forall i :: 0 <= i < k.value ==> !ProbeIsFatal(host, ports[i])
  {
    if ports == [] then None
    else if ProbeIsFatal(host, ports[0]) then Some(0)
    else
      match FirstFatal(host, ports[1..])
      case None => None
      case Some(k) => Some(k + 1)
  }

  /** What AllocInSlice returns for the candidates ports: the free ports
      and a nil error when no probe is fatal; otherwise a nil list and the
      error of the first fatal probe. */
  function CollectAll(host: Host, ports: seq<Uint64>): (r: BatchResult)
    ensures r.freePorts.None? <==> r.err.Some?
    ensures !IsBusy(r.err)
    ensures r.freePorts.Some? ==> |r.freePorts.value| <= |ports|
  {
    match FirstFatal(host, ports)
    case None => BatchResult(Some(FilterFree(host, ports)), None)
    case Some(k) => BatchResult(None, Alloc(host, ports[k]).err)
  }

  /** The candidates a batch probes: all of them, or those up to and
      including the first fatal one. */
  function Probed(host: Host, ports: seq<Uint64>): seq<Uint64> {
    match FirstFatal(host, ports)
    case None => ports
    case Some(k) => ports[..k + 1]
  }

  /** A batch probes a prefix of its candidates. It stops early only at a
      fatal probe, the last one it makes, and every probe before that one
      is not fatal. */
  lemma ProbedIsPrefix(host: Host, ports: seq<Uint64>)
    ensures |Probed(host, ports)| <= |ports|
    ensures Probed(host, ports) == ports[..|Probed(host, ports)|]
    ensures forall i :: 0 <= i < |Probed(host, ports)| - 1 ==> !ProbeIsFatal(host, Probed(host, ports)[i])
    ensures Probed(host, ports) != ports ==>
      Probed(host, ports) != [] && ProbeIsFatal(host, Probed(host, ports)[|Probed(host, ports)| - 1])
  {
  }

  /** The ascending candidates lo, lo+1, ..., hi (none when lo > hi). */
  function Range(lo: Uint64, hi: Uint64): (r: seq<Uint64>)
    ensures lo <= hi ==> |r| == hi - lo + 1
    ensures lo > hi ==> r == []
    ensures forall i :: 0 <= i < |r| ==> r[i] == lo + i
    decreases hi - lo
  {
    if lo > hi then []
    else if lo == hi then [lo]
    else [lo] + Range(lo + 1, hi)
  }

  /* ---------------------------------------------------------------------- */
  /* The collect-all policy: properties                                      */
  /* ---------------------------------------------------------------------- */

  /** FilterFree is the order-preserving filter of the candidates: its
      j-th port is the port result of the j-th candidate with a nil error.
      Equal candidates sit at different positions and are reported
      independently. */
  lemma {:induction false} FilterFreeAt(host: Host, ports: seq<Uint64>)
    ensures |FilterFree(host, ports)| == |FreeIndices(host, ports)|
    ensures forall j :: 0 <= j < |FreeIndices(host, ports)| ==>
      FilterFree(host, ports)[j] == Alloc(host, ports[FreeIndices(host, ports)[j]]).port
  {
    if ports != [] {
      var n := |ports| - 1;
      FilterFreeAt(host, ports[..n]);
      var idx := FreeIndices(host, ports[..n]);
      forall j | 0 <= j < |idx| ensures ports[..n][idx[j]] == ports[idx[j]] {
      }
    }
  }

  /** Probing two candidate lists one after the other reports the free
      ports of the first, then those of the second. */
  lemma {:induction false} FilterFreeAppend(host: Host, a: seq<Uint64>, b: seq<Uint64>)
    ensures FilterFree(host, a + b) == FilterFree(host, a) + FilterFree(host, b)
  {
    if b == [] {
      assert a + b == a;
    } else {
      var n := |b| - 1;
      assert (a + b)[..|a + b| - 1] == a + b[..n];
      assert (a + b)[|a + b| - 1] == b[n];
      FilterFreeAppend(host, a, b[..n]);
    }
  }

  /** When no probe is fatal, the batch returns a non-nil list: the ports
      of the candidates whose probe succeeded, in candidate order, and a
      nil error; every candidate was probed. */
  lemma NoFatalCollectsFree(host: Host, ports: seq<Uint64>)
    requires forall i :: 0 <= i < |ports| ==> !ProbeIsFatal(host, ports[i])
    ensures CollectAll(host, ports).err.None?
    ensures CollectAll(host, ports).freePorts == Some(FilterFree(host, ports))
    ensures |FilterFree(host, ports)| == |FreeIndices(host, ports)|
    ensures forall j :: 0 <= j < |FreeIndices(host, ports)| ==>
      FilterFree(host, ports)[j] == Alloc(host, ports[FreeIndices(host, ports)[j]]).port
    ensures Probed(host, ports) == ports
  {
    FilterFreeAt(host, ports);
  }

  /** Busy probes are skipped: when every candidate is busy the batch
      returns an empty, non-nil list and a nil error. */
  lemma {:induction false} AllBusyGivesEmptyList(host: Host, ports: seq<Uint64>)
    requires forall i :: 0 <= i < |ports| ==> IsBusy(Alloc(host, ports[i]).err)
    ensures CollectAll(host, ports) == BatchResult(Some([]), None)
  {
    if ports != [] {
      var n := |ports| - 1;
      assert forall i :: 0 <= i < n ==> ports[..n][i] == ports[i];
      AllBusyGivesEmptyList(host, ports[..n]);
    }
  }

  /** The first fatal probe aborts the batch: its error is returned with a
      nil list, the ports collected so far are dropped, and no later
      candidate is probed. */
  lemma FirstFatalAborts(host: Host, ports: seq<Uint64>, k: nat)
    requires k < |ports| && ProbeIsFatal(host, ports[k])
    requires forall i :: 0 <= i < k ==> !ProbeIsFatal(host, ports[i])
    ensures CollectAll(host, ports) == BatchResult(None, Alloc(host, ports[k]).err)
    ensures IsFatal(CollectAll(host, ports).err)
    ensures Probed(host, ports) == ports[..k + 1]
  {
  }

  /** Only a fatal probe makes a batch fail, and then never with
      ErrPortIsBusy: a batch never reports a busy port to its caller. */
  lemma BatchErrorIsFatal(host: Host, ports: seq<Uint64>)
    ensures CollectAll(host, ports).err.Some? <==> exists i :: 0 <= i < |ports| && ProbeIsFatal(host, ports[i])
    ensures CollectAll(host, ports).err.Some? <==> CollectAll(host, ports).freePorts.None?
    ensures !IsBusy(CollectAll(host, ports).err)
  {
  }

  /** A close failure on any candidate makes the whole batch fail. */
  lemma CloseFailureAbortsBatch(host: Host, ports: seq<Uint64>, i: nat)
    requires i < |ports|
    requires host(ports[i]).Listening? && host(ports[i]).closeErr.Some?
    ensures CollectAll(host, ports).freePorts.None?
    ensures IsFatal(CollectAll(host, ports).err)
  {
    if host(ports[i]).addr.TcpAddr? {
      AllocCloseFailure(host, ports[i]);
    } else {
      AllocReadBackFailure(host, ports[i]);
    }
  }

  /** A successful batch reports at most one port per candidate. */
  lemma BatchLengthBound(host: Host, ports: seq<Uint64>)
    ensures CollectAll(host, ports).freePorts.Some? ==>
      |CollectAll(host, ports).freePorts.value| <= |ports|
  {
  }

  /** Probed twice in a row, a candidate list is reported twice: equal
      candidates are probed and reported independently. The host gives one
      answer per port, so a candidate 0 is reported as the same OS-chosen
      port on both passes, where a real host picks a fresh port on each
      bind. */
  lemma RepeatedCandidatesReportedTwice(host: Host, ports: seq<Uint64>)
    requires forall i :: 0 <= i < |ports| ==> !ProbeIsFatal(host, ports[i])
    ensures CollectAll(host, ports + ports) ==
      BatchResult(Some(FilterFree(host, ports) + FilterFree(host, ports)), None)
  {
    FilterFreeAppend(host, ports, ports);
    assert forall i :: 0 <= i < |ports + ports| ==> !ProbeIsFatal(host, (ports + ports)[i]) by {
      forall i | 0 <= i < |ports + ports| ensures !ProbeIsFatal(host, (ports + ports)[i]) {
        if i >= |ports| { assert (ports + ports)[i] == ports[i - |ports|]; }
      }
    }
  }

  /** On an honest host, with no fatal probe and no candidate 0, the batch
      returns exactly the candidates whose probe succeeded, in input order. */
  lemma HonestBatchReturnsRequested(host: Host, ports: seq<Uint64>)
    requires HonestHost(host)
    requires forall i :: 0 <= i < |ports| ==> ports[i] != 0 && !ProbeIsFatal(host, ports[i])
    ensures CollectAll(host, ports).freePorts == Some(FilterFree(host, ports))
    ensures |FilterFree(host, ports)| == |FreeIndices(host, ports)|
    ensures forall j :: 0 <= j < |FreeIndices(host, ports)| ==>
      FilterFree(host, ports)[j] == ports[FreeIndices(host, ports)[j]]
  {
    FilterFreeAt(host, ports);
    var idx := FreeIndices(host, ports);
    forall j | 0 <= j < |idx| ensures FilterFree(host, ports)[j] == ports[idx[j]] {
      HonestAllocReturnsRequested(host, ports[idx[j]]);
    }
  }

  /* ---------------------------------------------------------------------- */
  /* The collect-all policy: the loops                                       */
  /* ---------------------------------------------------------------------- */

  /** One step of a batch loop over ports after a clean prefix of length i:
      a non-fatal probe extends the clean prefix and appends the port when
      the error is nil. */
  lemma CleanStep(host: Host, ports: seq<Uint64>, i: nat)
    requires i < |ports| && FirstFatal(host, ports[..i]).None?
    requires !ProbeIsFatal(host, ports[i])
    ensures ports[..i + 1] == ports[..i] + [ports[i]]
    ensures FirstFatal(host, ports[..i + 1]).None?
    ensures FilterFree(host, ports[..i + 1]) ==
      FilterFree(host, ports[..i]) + (if Alloc(host, ports[i]).err.None? then [Alloc(host, ports[i]).port] else [])
  {
    assert ports[..i + 1][..i] == ports[..i];
    assert forall j :: 0 <= j < i ==> ports[..i][j] == ports[j];
  }

  /** The end of a batch loop that probed every candidate without a fatal
      probe: the batch returns what it collected. */
  lemma CleanEnd(host: Host, ports: seq<Uint64>, free: seq<Uint64>)
    requires FirstFatal(host, ports[..|ports|]).None?
    requires free == FilterFree(host, ports[..|ports|])
    ensures CollectAll(host, ports) == BatchResult(Some(free), None)
    ensures Probed(host, ports) == ports
  {
    assert ports[..|ports|] == ports;
  }

  /** One step of a batch loop over ports after a clean prefix of length i:
      a fatal probe decides the whole batch. */
  lemma FatalStep(host: Host, ports: seq<Uint64>, i: nat)
    requires i < |ports| && FirstFatal(host, ports[..i]).None?
    requires ProbeIsFatal(host, ports[i])
    ensures CollectAll(host, ports) == BatchResult(None, Alloc(host, ports[i]).err)
    ensures Probed(host, ports) == ports[..i] + [ports[i]]
  {
    assert forall j :: 0 <= j < i ==> ports[..i][j] == ports[j];
    assert ports[..i + 1] == ports[..i] + [ports[i]];
  }


  /** AllocInSlice(ports): probe every candidate in order, skip busy ones,
      abort on any other error. The ghost result probed lists the
      candidates handed to Alloc, in order. */
  method AllocInSlice(host: Host, ports: seq<Uint64>)
    returns (freePorts: Option<seq<Uint64>>, allocErr: Option<Error>, ghost probed: seq<Uint64>)
    ensures BatchResult(freePorts, allocErr) == CollectAll(host, ports)
    ensures probed == Probed(host, ports)
  {
    var free: seq<Uint64> := [];
    probed := [];
    for i := 0 to |ports|
      invariant probed == ports[..i]
      invariant FirstFatal(host, ports[..i]).None?
      invariant free == FilterFree(host, ports[..i])
    {
      var p := ports[i];
      probed := probed + [p];
      var r := Alloc(host, p);
      var port, err := r.port, r.err;
      if IsFatal(err) {
        FatalStep(host, ports, i);
        return None, err, probed;
      }
      CleanStep(host, ports, i);
      if IsBusy(err) {
        continue;
      }
      free := free + [port];
    }
    CleanEnd(host, ports, free);
    freePorts, allocErr := Some(free), None;
  }

  /** AllocInRange(from, to): reject from > to without probing anything;
      otherwise behave as AllocInSlice on from, from+1, ..., to. The loop
      counter is a uint64; the requires rules out a host that accepts port
      2^64-1, the one case in which p++ would wrap around to 0 (no real host
      does: resolution fails above 65535). */
  method AllocInRange(host: Host, fromPort: Uint64, toPort: Uint64)
    returns (freePorts: Option<seq<Uint64>>, allocErr: Option<Error>, ghost probed: seq<Uint64>)
    requires toPort < MaxUint64 || ProbeIsFatal(host, toPort)
    ensures fromPort > toPort ==>
      freePorts.None? && allocErr == Some(Wrapped(RangeOrder, InvalidPortRange)) && probed == []
    ensures fromPort <= toPort ==> BatchResult(freePorts, allocErr) == CollectAll(host, Range(fromPort, toPort))
    ensures fromPort <= toPort ==> probed == Probed(host, Range(fromPort, toPort))
  {
    if fromPort > toPort {
      return None, Some(Wrapped(RangeOrder, InvalidPortRange)), [];
    }
    ghost var candidates := Range(fromPort, toPort);
    var free: seq<Uint64> := [];
    probed := [];
    var p := fromPort;
    while p <= toPort
      invariant fromPort <= p <= toPort + 1
      invariant probed == candidates[..p - fromPort]
      invariant FirstFatal(host, candidates[..p - fromPort]).None?
      invariant free == FilterFree(host, candidates[..p - fromPort])
      decreases toPort + 1 - p
    {
      ghost var i := p - fromPort;
      assert candidates[i] == p;
      probed := probed + [p];
      var r := Alloc(host, p);
      var port, err := r.port, r.err;
      if IsFatal(err) {
        FatalStep(host, candidates, i);
        return None, err, probed;
      }
      CleanStep(host, candidates, i);
      if !IsBusy(err) {
        free := free + [port];
      }
      p := p + 1;
    }
    CleanEnd(host, candidates, free);
    freePorts, allocErr := Some(free), None;
  }

  /** The rejected range carries ErrInvalidPortRange in its chain, and is
      not ErrPortIsBusy. */
  lemma InvalidRangeError()
    ensures Is(Wrapped(RangeOrder, InvalidPortRange), InvalidPortRange)
    ensures !Is(Wrapped(RangeOrder, InvalidPortRange), PortIsBusy)
  {
  }
}
