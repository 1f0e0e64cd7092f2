/** Address resolution and the "try every address" combinator of the network
    module: `ToSockAddrs` sources, `each_addr` and `each_addr_async`.

    A socket address (`socket2::SockAddr`) is left abstract: it is the type
    parameter `A` throughout. The callback handed to `each_addr` is a total
    function from an address to an `io::Result`. */
module Net {
  import opened Io

  // ---------------------------------------------------------------------------
  // ToSockAddrs
  // ---------------------------------------------------------------------------

  /** The values that implement `ToSockAddrs`, one constructor per kind of impl. */
  datatype AddrSource<A> =
    | Single(addr: A)
      // `impl ToSockAddrs for SockAddr`
    | Slice(addrs: seq<A>)
      // `impl ToSockAddrs for &[SockAddr]`
    | Ref(target: AddrSource<A>)
      // `impl ToSockAddrs for &T`, a borrow of another source
    | Std(resolution: Result<seq<A>>)
      // the impls backed by `std::net::ToSocketAddrs` (socket addresses, host
      // strings, `(ip, port)` pairs): system resolution is outside the model,
      // so such a source is the outcome that resolution reports

  /** `to_sock_addrs`: the addresses a source yields, in iteration order, or the
      error that resolving it reported. Through any number of borrows, a
      `SockAddr` yields exactly itself, a slice exactly its elements, and a
      std-backed source whatever system resolution reported. */
  function ToSockAddrs<A>(src: AddrSource<A>): (r: Result<seq<A>>)
    ensures Deref(src).Single? ==> r == Ok([Deref(src).addr])
    ensures Deref(src).Slice? ==> r == Ok(Deref(src).addrs)
    ensures Deref(src).Std? ==> r == Deref(src).resolution
  {
    match src
    case Single(a) => Ok([a])
    case Slice(s) => Ok(s)
    case Ref(t) => ToSockAddrs(t)
    case Std(res) => res
  }

  /** A source borrowed `n` times: `&&…&src`. */
  function Borrowed<A>(src: AddrSource<A>, n: nat): (b: AddrSource<A>)
  {
    if n == 0 then src else Ref(Borrowed(src, n - 1))
  }

  /** The source a chain of borrows finally refers to. */
  function Deref<A>(src: AddrSource<A>): (d: AddrSource<A>)
    ensures !d.Ref?
  {
    if src.Ref? then Deref(src.target) else src
  }

  /** A single `SockAddr` resolves, without failing, to exactly itself. */
  lemma SingleYieldsItself<A>(a: A)
    ensures ToSockAddrs(Single(a)).Ok?
    ensures |ToSockAddrs(Single(a)).value| == 1
    ensures ToSockAddrs(Single(a)).value[0] == a
  {
  }

  /** A slice resolves, without failing, to its own elements in the same order:
      none dropped, none added. */
  lemma SliceYieldsElementsInOrder<A>(s: seq<A>)
    ensures ToSockAddrs(Slice(s)).Ok?
    ensures |ToSockAddrs(Slice(s)).value| == |s|
    ensures forall i :: 0 <= i < |s| ==> ToSockAddrs(Slice(s)).value[i] == s[i]
  {
  }

  /** Borrowing a source any number of times yields exactly what the source
      yields, including its error. */
  lemma {:induction false} BorrowYieldsSame<A>(src: AddrSource<A>, n: nat)
    ensures ToSockAddrs(Borrowed(src, n)) == ToSockAddrs(src)
    ensures Deref(Borrowed(src, n)) == Deref(src)
  {
    if n > 0 {
      BorrowYieldsSame(src, n - 1);
    }
  }

  /** Resolution goes through every borrow to the underlying source, and only a
      source backed by system resolution can fail. */
  lemma OnlySystemResolutionFails<A>(src: AddrSource<A>)
    ensures ToSockAddrs(src) == ToSockAddrs(Deref(src))
    ensures ToSockAddrs(src).Err? ==> Deref(src).Std? && Deref(src).resolution.Err?
  {
  }

  // ---------------------------------------------------------------------------
  // each_addr: specification
  // ---------------------------------------------------------------------------

  /** The error `each_addr` reports when the source yields no address at all. */
  function NoAddresses(): (e: Error)
    ensures e.kind == InvalidInput
    ensures e.message == "could not resolve to any addresses"
  {
    Error(InvalidInput, "could not resolve to any addresses")
  }

  /** The position of the first address for which `f` succeeds, or `|addrs|`
      when `f` fails for every one of them. */
  function FirstSuccess<A, T>(addrs: seq<A>, f: A -> Result<T>): (k: nat)
    ensures k <= |addrs|
    ensures forall i :: 0 <= i < k ==> f(addrs[i]).Err?
    ensures k < |addrs| ==> f(addrs[k]).Ok?
  {
    if addrs == [] then 0
    else if f(addrs[0]).Ok? then 0
    else 1 + FirstSuccess(addrs[1..], f)
  }

  /** The addresses `each_addr` hands to `f`, in order: every address up to and
      including the first success, or all of them when none succeeds; none
      when resolution fails. */
  function Attempted<A, T>(resolved: Result<seq<A>>, f: A -> Result<T>): seq<A>
  {
    match resolved
    case Err(_) => []
    case Ok(addrs) =>
      var k := FirstSuccess(addrs, f);
      if k < |addrs| then addrs[..k + 1] else addrs
  }

  /** What `each_addr` returns once the source has been resolved: the
      resolution error; else the value of the first address that succeeds;
      else the error of the last address; else (no address) `NoAddresses()`. */
  function EachAddrOutcome<A, T>(resolved: Result<seq<A>>, f: A -> Result<T>): Result<T>
  {
    match resolved
    case Err(e) => Err(e)
    case Ok(addrs) =>
      var k := FirstSuccess(addrs, f);
      if k < |addrs| then f(addrs[k])
      else if addrs == [] then Err(NoAddresses())
      else f(addrs[|addrs| - 1])
  }

  // ---------------------------------------------------------------------------
  // each_addr: properties of the specification
  // ---------------------------------------------------------------------------

  /** When resolution fails, that very error is returned and `f` is never called. */
  lemma ResolutionErrorReturnedUntried<A, T>(e: Error, f: A -> Result<T>)
    ensures EachAddrOutcome(Err(e), f) == Err(e)
    ensures Attempted(Err(e), f) == []
  {
  }

  /** When the address at position `k` is the first one for which `f`
      succeeds, its value is returned, and `f` was called on exactly the
      addresses up to and including it. */
  lemma FirstSuccessReturned<A, T>(addrs: seq<A>, f: A -> Result<T>, k: nat)
    requires k < |addrs| && f(addrs[k]).Ok?
    requires forall i :: 0 <= i < k ==> f(addrs[i]).Err?
    ensures EachAddrOutcome(Ok(addrs), f) == Ok(f(addrs[k]).value)
    ensures Attempted(Ok(addrs), f) == addrs[..k + 1]
  {
  }

  /** `each_addr` succeeds exactly when the source resolves and `f` succeeds
      for at least one of its addresses. */
  lemma SucceedsIffSomeAddressSucceeds<A, T>(resolved: Result<seq<A>>, f: A -> Result<T>)
    ensures EachAddrOutcome(resolved, f).Ok? <==>
      resolved.Ok? && exists i :: 0 <= i < |resolved.value| && f(resolved.value[i]).Ok?
  {
  }

  /** When `f` fails for every one of a non-empty list of addresses, it was
      called on all of them and the error for the last address is returned. */
  lemma AllFailReturnsLastError<A, T>(addrs: seq<A>, f: A -> Result<T>)
    requires addrs != []
    requires forall i :: 0 <= i < |addrs| ==> f(addrs[i]).Err?
    ensures EachAddrOutcome(Ok(addrs), f) == Err(f(addrs[|addrs| - 1]).error)
    ensures Attempted(Ok(addrs), f) == addrs
  {
  }

  /** With no address at all, `f` is never called and the result is an
      `InvalidInput` error saying that nothing could be resolved. */
  lemma NoAddressIsInvalidInput<A, T>(f: A -> Result<T>)
    ensures Attempted(Ok([]), f) == []
    ensures EachAddrOutcome(Ok([]), f).Err?
    ensures EachAddrOutcome(Ok([]), f).error.kind == InvalidInput
    ensures EachAddrOutcome(Ok([]), f).error.message == "could not resolve to any addresses"
  {
  }

  /** The calls to `f` follow the iteration order: the addresses tried are a
      prefix of the resolved ones, every one before the last failed, their
      number is the position of the first success plus one (all of them if
      none succeeds), and the outcome is exactly `f`'s answer for the last
      address tried. */
  lemma AttemptsFollowIterationOrder<A, T>(addrs: seq<A>, f: A -> Result<T>)
    ensures var tried := Attempted(Ok(addrs), f);
      && tried <= addrs
      && (forall i :: 0 <= i < |tried| - 1 ==> f(tried[i]).Err?)
      && |tried| == (if FirstSuccess(addrs, f) < |addrs| then FirstSuccess(addrs, f) + 1 else |addrs|)
      && (tried != [] ==> EachAddrOutcome(Ok(addrs), f) == f(tried[|tried| - 1]))
  {
  }

  /** Trying a single `SockAddr` returns `f`'s own answer for it, success or
      error, after exactly one call; it never reports `NoAddresses()`. */
  lemma SingleAddressTriedOnce<A, T>(a: A, f: A -> Result<T>)
    ensures EachAddrOutcome(ToSockAddrs(Single(a)), f) == f(a)
    ensures Attempted(ToSockAddrs(Single(a)), f) == [a]
  {
  }

  // ---------------------------------------------------------------------------
  // each_addr and each_addr_async
  // ---------------------------------------------------------------------------

  /** `each_addr`: resolve `addr`, then call `f` on each address in turn,
      returning the first success, else the last error, else `NoAddresses()`.
      `tried` records the addresses `f` was called with, in order. */
  method EachAddr<A, T>(addr: AddrSource<A>, f: A -> Result<T>)
    returns (r: Result<T>, ghost tried: seq<A>)
    ensures r == EachAddrOutcome(ToSockAddrs(addr), f)
    ensures tried == Attempted(ToSockAddrs(addr), f)
  {
    tried := [];
    var resolved := ToSockAddrs(addr);
    if resolved.Err? {
      return Err(resolved.error), tried;
    }
    var addrs := resolved.value;
    var lastErr: Option<Error> := None;
    for i := 0 to |addrs|
      invariant tried == addrs[..i]
      invariant forall j :: 0 <= j < i ==> f(addrs[j]).Err?
      invariant lastErr == if i == 0 then None else Some(f(addrs[i - 1]).error)
    {
      var attempt := f(addrs[i]);
      tried := tried + [addrs[i]];
      match attempt
      case Ok(l) =>
        assert FirstSuccess(addrs, f) == i;
        return Ok(l), tried;
      case Err(e) =>
        lastErr := Some(e);
    }
    assert FirstSuccess(addrs, f) == |addrs|;
    assert addrs[..|addrs|] == addrs;
    r := Err(lastErr.UnwrapOr(NoAddresses()));
  }

  /** A future reduced to the value its `.await` produces; polling and
      suspension are not modelled. */
  datatype Future<T> = Future(output: Result<T>)

  /** `each_addr_async`: the same loop as `EachAddr`, where each call of `f`
      gives a future that is awaited before the next address is tried. Its
      outcome and its sequence of calls are those of `EachAddr` run with the
      awaited results. */
  method EachAddrAsync<A, T>(addr: AddrSource<A>, f: A -> Future<T>)
    returns (r: Result<T>, ghost tried: seq<A>)
    ensures r == EachAddrOutcome(ToSockAddrs(addr), a => f(a).output)
    ensures tried == Attempted(ToSockAddrs(addr), a => f(a).output)
  {
    ghost var awaited := a => f(a).output;
    tried := [];
    var resolved := ToSockAddrs(addr);
    if resolved.Err? {
      return Err(resolved.error), tried;
    }
    var addrs := resolved.value;
    var lastErr: Option<Error> := None;
    for i := 0 to |addrs|
      invariant tried == addrs[..i]
      invariant forall j :: 0 <= j < i ==> awaited(addrs[j]).Err?
      invariant lastErr == if i == 0 then None else Some(awaited(addrs[i - 1]).error)
    {
      var attempt := f(addrs[i]).output;
      tried := tried + [addrs[i]];
      match attempt
      case Ok(l) =>
        assert FirstSuccess(addrs, awaited) == i;
        return Ok(l), tried;
      case Err(e) =>
        lastErr := Some(e);
    }
    assert FirstSuccess(addrs, awaited) == |addrs|;
    assert addrs[..|addrs|] == addrs;
    r := Err(lastErr.UnwrapOr(NoAddresses()));
  }
}
