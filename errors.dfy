/**
 * Error values of the portalloc package (portalloc.go:11-25) together with the
 * part of Go's error machinery the package relies on: wrapping with
 * fmt.Errorf("...: %w", err), errors.Join and errors.Is.
 * Errors are tagged values, not message strings.
 */
module Errors {
  import opened Wrappers

  /** An error reported by the operating system or by the net package
      (an errno inside a *net.OpError, a *net.AddrError, ...). Only the
      address-in-use condition (syscall.EADDRINUSE) is told apart. */
  datatype OsError = AddrInUse | OtherOsError(code: nat)

  /** The message prefix of an error built with fmt.Errorf in portalloc.go. */
  datatype Context =
    | ResolveAddr   // "failed to resolve TCP address"
    | AllocatePort  // "failed to allocate TCP port"
    | ConvertAddr   // "failed to convert address to net.TCPAddr"
    | RangeOrder    // "to can't be lower than from"

  datatype Error =
    | PortIsBusy                            // the sentinel ErrPortIsBusy
    | InvalidPortRange                      // the sentinel ErrInvalidPortRange
    | Os(cause: OsError)                    // an error value from the OS or the net package
    | Wrapped(context: Context, inner: Error)  // fmt.Errorf with one %w verb
    | Message(context: Context)             // fmt.Errorf without %w: wraps nothing
    | Joined(errs: seq<Error>)              // the value errors.Join returns

  /** errors.Is: err is target, or target is found along err's chain of
      wrapped errors (through every member of a joined error). */
  predicate Is(err: Error, target: Error)
    decreases err
  {
    || err == target
    || (err.Wrapped? && Is(err.inner, target))
    || (err.Joined? && exists i :: 0 <= i < |err.errs| && Is(err.errs[i], target))
  }

  /** errors.Is(err, target) where err may be nil: nil matches no error. */
  predicate IsSome(err: Option<Error>, target: Error) {
    err.Some? && Is(err.value, target)
  }

  /** The non-nil members of errs, in order. */
  function NonNil(errs: seq<Option<Error>>): (r: seq<Error>)
    ensures |r| <= |errs|
    ensures forall e :: e in r <==> Some(e) in errs
  {
    if errs == [] then []
    else (if errs[0].Some? then [errs[0].value] else []) + NonNil(errs[1..])
  }

  /** errors.Join: nil when every argument is nil, otherwise one error that
      wraps the non-nil arguments. */
  function Join(errs: seq<Option<Error>>): (r: Option<Error>)
    ensures r.None? <==> forall i :: 0 <= i < |errs| ==> errs[i].None?
    ensures r.Some? ==> forall t: Error :: !t.Joined? ==>
      (Is(r.value, t) <==> exists i :: 0 <= i < |errs| && IsSome(errs[i], t))
  {
    var nonNil := NonNil(errs);
    if nonNil == [] then
      None
    else
      assert Some(nonNil[0]) in errs;
      assert forall t: Error :: !t.Joined? ==>
        (Is(Joined(nonNil), t) <==> exists i :: 0 <= i < |errs| && IsSome(errs[i], t)) by {
        forall t: Error | !t.Joined?
          ensures Is(Joined(nonNil), t) <==> exists i :: 0 <= i < |errs| && IsSome(errs[i], t)
        {
          if Is(Joined(nonNil), t) {
            var j :| 0 <= j < |nonNil| && Is(nonNil[j], t);
            assert Some(nonNil[j]) in errs;
            var i :| 0 <= i < |errs| && errs[i] == Some(nonNil[j]);
            assert IsSome(errs[i], t);
          }
          if exists i :: 0 <= i < |errs| && IsSome(errs[i], t) {
            var i :| 0 <= i < |errs| && IsSome(errs[i], t);
            assert errs[i].value in nonNil;
            var j :| 0 <= j < |nonNil| && nonNil[j] == errs[i].value;
            assert Is(nonNil[j], t);
          }
        }
      }
      Some(Joined(nonNil))
  }

  /** The error built by wrapping err n times with fmt.Errorf("...: %w"). */
  function WrapN(n: nat, ctx: Context, err: Error): Error {
    if n == 0 then err else Wrapped(ctx, WrapN(n - 1, ctx, err))
  }

  /** No OS error matches a package sentinel, however deeply it is wrapped. */
  lemma {:induction false} OsErrorIsNoSentinel(c: OsError, ctx: Context, n: nat)
    ensures !Is(WrapN(n, ctx, Os(c)), PortIsBusy)
    ensures !Is(WrapN(n, ctx, Os(c)), InvalidPortRange)
  {
    if n > 0 {
      OsErrorIsNoSentinel(c, ctx, n - 1);
    }
  }

  /** errors.Is follows chains: an error that matches b matches every
      error b matches. */
  lemma {:induction false} IsTransitive(a: Error, b: Error, c: Error)
    requires Is(a, b) && Is(b, c)
    ensures Is(a, c)
    decreases a
  {
    if a == b {
    } else if a.Wrapped? && Is(a.inner, b) {
      IsTransitive(a.inner, b, c);
    } else {
      var i :| 0 <= i < |a.errs| && Is(a.errs[i], b);
      IsTransitive(a.errs[i], b, c);
    }
  }
}
