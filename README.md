# portalloc in Dafny

A model of the Go package `portalloc`, which finds free TCP ports on the local
host by binding each candidate port and releasing it at once.

- `Alloc(port)` resolves `":port"`, listens on it, reads the bound port back
  and closes the listener. Its result is a port and an error. An
  address-in-use failure gives the sentinel `ErrPortIsBusy`. A resolve
  failure and any other listen failure give an error that wraps the
  underlying error with `%w`. A bound address of the wrong type gives a
  plain message error that wraps nothing. None of these is
  `ErrPortIsBusy`. A failing close is joined onto the error result with
  `errors.Join` by a deferred closure and leaves the port result alone.
- `AllocInSlice(ports)` probes the candidates in order. It skips busy ports
  and appends the others to the list of free ports. The first error that is
  not `ErrPortIsBusy` aborts the call: it returns a nil list and that error.
- `AllocInRange(from, to)` rejects `from > to` with an error wrapping
  `ErrInvalidPortRange` and probes nothing. Otherwise it does what
  `AllocInSlice` does on `from, from+1, ..., to`.

The operating system is an oracle. A `Host` maps every port number to a
`ProbeOutcome`: whether resolution fails, whether listening fails and with
which OS error, what `l.Addr()` returns, and whether `l.Close()` fails.
`Alloc` is a pure function of that outcome. The two batch operations are
methods with loops. They are proved against the specification function
`CollectAll`, which is built from `FirstFatal` (the first candidate whose
probe aborts the batch) and `FilterFree` (the ports a batch appends). A ghost
result `probed` records which candidates were handed to `Alloc`. The
`HonestHost` predicate states what the package expects of a real host:
resolution fails exactly above port 65535, and a non-zero port binds as
itself.

Files:

- `wrappers.dfy`: `Option`, which stands for Go's nil error and nil slice.
- `errors.dfy`: the package's error values and the parts of Go's error
  handling it relies on (`fmt.Errorf` with `%w`, `errors.Join`, `errors.Is`).
- `portalloc.dfy`: the host oracle, `Alloc`, the collect-all specification,
  its properties and the two loops.
- `scenarios.dfy`: the cases of `portalloc_test.go`, stated over hosts that
  answer as the tests' helper listeners make the real host answer.

## Model

| member | source | states |
|---|---|---|
| Errors.Is | portalloc.go:65-72 | `errors.Is`: an error matches a target when it is the target, or when the target is found through a `%w` wrapper or a member of a joined error. It has no contract of its own. Its properties are in `Errors.IsTransitive`, `Errors.OsErrorIsNoSentinel` and `Errors.Join`. |
| Errors.IsTransitive | portalloc.go:65-72 | `errors.Is` follows chains: if an error matches b and b matches c, then the error matches c. |
| Errors.Join | portalloc.go:44-48 | `errors.Join` gives nil exactly when every argument is nil. Otherwise its result matches a non-joined target exactly when some non-nil argument matches it. |
| Errors.NonNil | portalloc.go:46 | The non-nil arguments of `errors.Join`: an error is among them exactly when it was passed as a non-nil argument, and there are no more of them than there were arguments. |
| Errors.OsErrorIsNoSentinel | portalloc.go:11-17 | An OS error wrapped any number of times by `fmt.Errorf` with `%w` (including not at all) never matches `ErrPortIsBusy` or `ErrInvalidPortRange`. |
| PortAlloc.DeferredClose | portalloc.go:44-48 | The deferred close never changes the port result. Without a close error the error result is unchanged. With one, the error is non-nil, contains the close error, and matches a non-joined target exactly when the earlier error or the close error does. |
| PortAlloc.Alloc | portalloc.go:29-56 | `Alloc` returns port 0 on every failure up to and including the read-back. A non-zero port comes only from a read-back `*net.TCPAddr`, and then it is that address's port, whether or not the close fails. A nil error requires a successful listen and close. The classification lemmas below carry the rest. |
| PortAlloc.IsBusy | portalloc.go:70-72 | `errors.Is(err, ErrPortIsBusy)` on a possibly nil error. No contract of its own. See `PortAlloc.ErrorClassification`. |
| PortAlloc.IsFatal | portalloc.go:65-67 | `err != nil && !errors.Is(err, ErrPortIsBusy)`, the abort test of the batch loops. No contract of its own. See `PortAlloc.ErrorClassification`. |
| PortAlloc.ErrorClassification | portalloc.go:64-74 | Every probe error is exactly one of nil (the port is appended), busy (the port is skipped) or fatal (the batch aborts). |
| PortAlloc.AllocBusyIffAddrInUse | portalloc.go:35-42 | `Alloc` reports busy exactly when listening fails with address-in-use. It then returns `ErrPortIsBusy` itself and port 0. |
| PortAlloc.AllocResolveFailure | portalloc.go:30-33 | A resolve failure gives port 0 and a fatal error that wraps the resolver's error and is not `ErrPortIsBusy`. |
| PortAlloc.AllocListenFailure | portalloc.go:35-42 | A listen failure other than address-in-use gives port 0 and a fatal error that wraps the listener's error. |
| PortAlloc.AllocReadBackFailure | portalloc.go:44-53 | A bound address that is not a `*net.TCPAddr` gives port 0 and a fatal conversion error. If the close fails as well, the close error is joined onto it. |
| PortAlloc.AllocSuccessIff | portalloc.go:35-55 | `Alloc` returns a nil error exactly when listening, read-back and close all succeed. It then returns the bound port. |
| PortAlloc.AllocCloseFailure | portalloc.go:44-55 | A close failure after a successful bind keeps the bound port as the result. It makes the error non-nil, not busy, and a wrapper of the close error. |
| PortAlloc.HonestAllocReturnsRequested | portalloc.go:50-55 | On an honest host a successful `Alloc` of a non-zero port returns that port. For port 0 it returns some port in 1..65535. |
| PortAlloc.HonestOutOfRangeIsFatal | portalloc.go:30-33 | On an honest host a port above 65535 is never busy. Its probe is fatal and wraps the resolve error. |
| PortAlloc.FilterFree | portalloc.go:74 | A batch appends at most one port per candidate. |
| PortAlloc.FreeIndices | portalloc.go:63-75 | The positions of the candidates whose probe returns a nil error: in range, strictly ascending, and containing every such position. |
| PortAlloc.FirstFatal | portalloc.go:65-67 | The first candidate whose probe is fatal: none exactly when no probe is fatal; otherwise a fatal position with no fatal one before it. |
| PortAlloc.Range | portalloc.go:89 | The candidates of `AllocInRange`: `to - from + 1` ports, the i-th being `from + i`, and none when `from > to`. |
| PortAlloc.CollectAll | portalloc.go:60-78 | The result of a batch. Its list is nil exactly when its error is non-nil, its error is never `ErrPortIsBusy`, and a non-nil list has at most one port per candidate. |
| PortAlloc.Probed | portalloc.go:63-67 | The candidates a batch hands to `Alloc`. No contract of its own. See `PortAlloc.ProbedIsPrefix`. |
| PortAlloc.ProbedIsPrefix | portalloc.go:63-67 | A batch probes a prefix of its candidates. It stops early only right after a fatal probe, and no earlier probe is fatal. |
| PortAlloc.FilterFreeAt | portalloc.go:63-77 | The free-port list is the order-preserving filter of the candidates: its j-th port is the port result of the j-th candidate with a nil error. Equal candidates are reported independently. |
| PortAlloc.FilterFreeAppend | portalloc.go:63-77 | Probing two candidate lists one after the other reports the free ports of the first, then those of the second. |
| PortAlloc.NoFatalCollectsFree | portalloc.go:63-77 | When no probe is fatal, the batch returns a non-nil list with the ports of the successful probes in candidate order and a nil error, after probing every candidate. |
| PortAlloc.AllBusyGivesEmptyList | portalloc.go:61-72 | When every candidate is busy, the batch returns an empty, non-nil list and a nil error. |
| PortAlloc.FirstFatalAborts | portalloc.go:64-67 | The first fatal probe aborts the batch. It returns a nil list and that probe's error, and no later candidate is probed. |
| PortAlloc.BatchErrorIsFatal | portalloc.go:63-77 | A batch fails exactly when some probe is fatal, and exactly then its list is nil. Its error is never `ErrPortIsBusy`. |
| PortAlloc.CloseFailureAbortsBatch | portalloc.go:44-48 | A close failure on any candidate makes the whole batch fail with a nil list and a non-busy error. |
| PortAlloc.BatchLengthBound | portalloc.go:61-74 | A successful batch returns no more ports than it had candidates. |
| PortAlloc.RepeatedCandidatesReportedTwice | portalloc.go:63-77 | Without fatal probes, a candidate list given twice is reported twice: duplicates are probed and reported independently. |
| PortAlloc.HonestBatchReturnsRequested | portalloc.go:63-77 | On an honest host with no fatal probe and no candidate 0, the batch returns exactly the candidates whose probe succeeded, in input order. |
| PortAlloc.AllocInSlice | portalloc.go:60-78 | The loop returns exactly `CollectAll` of its candidates and probes exactly the candidates up to the first fatal one. |
| PortAlloc.AllocInRange | portalloc.go:82-104 | `from > to` gives a nil list, the wrapped `ErrInvalidPortRange` and no probe. Otherwise the result and the probes are those of `AllocInSlice` on `from, ..., to`, and the counter never wraps. |
| PortAlloc.InvalidRangeError | portalloc.go:83-85 | The range error matches `ErrInvalidPortRange` and does not match `ErrPortIsBusy`. |
| Scenarios.AllocFreePort | portalloc_test.go:12-25 | A free port 20000 is allocated as 20000 with a nil error. |
| Scenarios.AllocHeldPort | portalloc_test.go:27-37 | A port held by another listener gives exactly `ErrPortIsBusy`. |
| Scenarios.AllocOutOfRangePort | portalloc_test.go:39-47 | Port 100000 fails at resolution. The error wraps the resolver's error and is not `ErrPortIsBusy`. |
| Scenarios.RangeAndSliceScenarios | portalloc_test.go:50-136 | A caller of both batch methods on 20000, 20001 (both free, or the first held). Both methods report the same list: `[20000, 20001]` or `[20001]`, with a nil error. The reversed range returns a nil list and the range error, and probes nothing. No contract: the facts are assertions in its body. |
| Scenarios.BothFree | portalloc_test.go:51-65 | With 20000 and 20001 free, both are reported, in order. |
| Scenarios.FirstHeld | portalloc_test.go:67-83 | With 20000 held and 20001 free, only 20001 is reported. |
| Scenarios.RangeAllHeld | portalloc_test.go:85-102 | With both ports held, the result is an empty, non-nil list and a nil error. |

## Left out

- The socket calls (`net.ResolveTCPAddr`, `net.ListenTCP`, `l.Addr()`, `l.Close()`) are replaced by the `Host` oracle. The port 0 choice of the OS is only the oracle's answer.
- A `Host` gives one fixed answer per port for the whole call. Concurrent callers, the race between a probe and the caller's later use of the port, and timing are not modelled.
- Error messages and the concrete Go error types are not modelled. Errors are tagged values. `errors.Is` compares by value where Go compares pointers, which makes no difference for the package's sentinel targets.
- The address-in-use test `errors.Is(listenErr, syscall.EADDRINUSE)` is the `AddrInUse` case of the abstract OS error.
- Slice capacity hints (`make(..., 0, len(ports))`, `make(..., 0, to-from)`) are not modelled. For `AllocInSlice` this only affects performance. For `AllocInRange` a very wide range is different: a capacity `to-from` above what the runtime can allocate makes Go panic ("makeslice: cap out of range") or run out of memory before any probe. `AllocInRange(0, 2^64-1)` is such a case. The model instead gives `CollectAll` of the range, and this panic is not modelled.
- AllocInRange: requires `to < 2^64-1` or a fatal probe of port `to`. Without that, `p++` on a uint64 would wrap from 2^64-1 to 0. The loop would then go on probing 0, 1, ... and stop at the first fatal probe, if there is one. In Go that case is reachable only when `to-from` is small enough to allocate, so only when `from` is close to 2^64-1. A real host never accepts port 2^64-1, because resolution fails above 65535.
- A first-fit range variant does not exist in this package and is not modelled.
- The benchmarks and the test helpers `helperAlloc` and `helperMakePortsSlice` are I/O harness code.
