/**
 * The scenarios of portalloc_test.go, stated over hosts that answer as the
 * test's listeners make the real host answer.
 */
module Scenarios {
  import opened Wrappers
  import opened Errors
  import opened PortAlloc

  /** The port is free: listening succeeds on it and closing succeeds. */
  predicate Free(host: Host, port: Uint64) {
    host(port) == Listening(TcpAddr(port), None)
  }

  /** Another listener holds the port. */
  predicate Held(host: Host, port: Uint64) {
    host(port) == ListenFailed(AddrInUse)
  }

  /** TestPortAlloc/OK: a free port 20000 is allocated as 20000 with a nil error. */
  lemma AllocFreePort(host: Host)
    requires Free(host, 20000)
    ensures Alloc(host, 20000) == AllocResult(20000, None)
  {
  }

  /** TestPortAlloc/ErrPortIsBusy: a held port 30000 gives exactly ErrPortIsBusy. */
  lemma AllocHeldPort(host: Host)
    requires Held(host, 30000)
    ensures Alloc(host, 30000).err == Some(PortIsBusy)
  {
  }

  /** TestPortAlloc/NetAddrError: port 100000 fails at resolution; the
      error wraps the resolver's error and is not ErrPortIsBusy. */
  lemma AllocOutOfRangePort(host: Host)
    requires HonestHost(host)
    ensures host(100000).ResolveFailed?
    ensures Is(Alloc(host, 100000).err.value, Os(host(100000).resolveErr))
    ensures !IsBusy(Alloc(host, 100000).err)
  {
    HonestOutOfRangeIsFatal(host, 100000);
  }

  /** AllocFirst: both candidates free, both are reported, in order. */
  lemma BothFree(host: Host)
    requires Free(host, 20000) && Free(host, 20001)
    ensures CollectAll(host, [20000, 20001]) == BatchResult(Some([20000, 20001]), None)
  {
    assert Alloc(host, 20000) == AllocResult(20000, None);
    assert Alloc(host, 20001) == AllocResult(20001, None);
    assert [20000][..0] == [] && [20001][..0] == [];
    assert FilterFree(host, [20000]) == [20000] && FilterFree(host, [20001]) == [20001];
    FilterFreeAppend(host, [20000], [20001]);
    assert [20000] + [20001] == [20000, 20001];
  }

  /** AllocSecond: the first candidate held, only the second is reported. */
  lemma FirstHeld(host: Host)
    requires Held(host, 20000) && Free(host, 20001)
    ensures CollectAll(host, [20000, 20001]) == BatchResult(Some([20001]), None)
  {
    assert FilterFree(host, [20000]) == [] && FilterFree(host, [20001]) == [20001];
    FilterFreeAppend(host, [20000], [20001]);
    assert [20000] + [20001] == [20000, 20001];
  }

  /** TestAllocInRange and TestAllocInSlice on the candidates 20000, 20001,
      as a caller of the two methods sees them; and a reversed range. */
  method RangeAndSliceScenarios(host: Host, first: bool)
    requires Free(host, 20001)
    requires first ==> Free(host, 20000)
    requires !first ==> Held(host, 20000)
  {
    assert Range(20000, 20001) == [20000, 20001];
    var free, err, _ := AllocInRange(host, 20000, 20001);
    var freeSlice, errSlice, _ := AllocInSlice(host, [20000, 20001]);
    if first {
      BothFree(host);
      assert free == freeSlice == Some([20000, 20001]) && err == errSlice == None;
    } else {
      FirstHeld(host);
      assert free == freeSlice == Some([20001]) && err == errSlice == None;
    }
    var none, rangeErr, probed := AllocInRange(host, 20001, 20000);
    assert none.None? && IsSome(rangeErr, InvalidPortRange) && probed == [];
  }

  /** TestAllocInRange/AllBusy: with both candidates held the result is an
      empty, non-nil list and a nil error. */
  lemma RangeAllHeld(host: Host)
    requires Held(host, 20000) && Held(host, 20001)
    ensures CollectAll(host, Range(20000, 20001)) == BatchResult(Some([]), None)
  {
    var candidates := Range(20000, 20001);
    assert candidates == [20000, 20001];
    AllBusyGivesEmptyList(host, candidates);
  }
}
