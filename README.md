# compio network address trial, in Dafny

This project models the address handling in compio's network module
(`src/net/mod.rs`). The module defines two things:

- **`ToSockAddrs`**: a trait for values that can be turned into socket
  addresses. A single `SockAddr` yields itself. A slice `&[SockAddr]` yields
  its elements in order. A borrow `&T` yields whatever `T` yields. The
  std-backed impls (`SocketAddr`, host strings, `(ip, port)` pairs) hand the
  work to `std::net::ToSocketAddrs`.
- **`each_addr` / `each_addr_async`**: private helpers of the module that
  take any `impl ToSockAddrs`. They resolve such a value, then call a
  caller-supplied function on each address in iteration order. They return
  the first success. If every call fails, they return the error for the last
  address. If there is no address at all, they return the `InvalidInput`
  error "could not resolve to any addresses". A resolution error is passed
  on at once.

Layout:

- `io.dfy`, module `Io`: `io::Error` (kind and message), a subset of
  `io::ErrorKind`, `io::Result<T>` and `Option<T>`.
- `net.dfy`, module `Net`:
  - `AddrSource` has one constructor per kind of `ToSockAddrs` impl, and
    `ToSockAddrs` resolves it.
  - `FirstSuccess`, `Attempted` and `EachAddrOutcome` are pure functions.
    They state what `each_addr` returns and which addresses it passes to
    the callback.
  - The methods `EachAddr` and `EachAddrAsync` follow the source's loop,
    including its `last_err` variable. Each is proved to return exactly
    `EachAddrOutcome` and to call the callback on exactly `Attempted`, in
    order. `Attempted` is recorded as the ghost out-parameter `tried`.
- A socket address is the type parameter `A`. The callback is a total
  function `A -> Result<T>`. For the async variant, the callback returns a
  `Future` whose `output` is what `.await` yields.

## Model

| member | source | states |
|---|---|---|
| `Net.ToSockAddrs` | src/net/mod.rs:62-84 | Looks through any number of borrows (`&T` delegates to `T`). A `SockAddr` yields `Ok` with exactly itself. A slice yields `Ok` with exactly its elements in order. A std-backed source yields whatever system resolution reported. The lemmas `SingleYieldsItself`, `SliceYieldsElementsInOrder` and `BorrowYieldsSame` restate the per-impl cases. |
| `Net.NoAddresses` | src/net/mod.rs:98-103 | The fallback error constant of lines 99-102: kind `InvalidInput`, message "could not resolve to any addresses". |
| `Net.EachAddr` | src/net/mod.rs:86-104 | The result is the resolution error if resolving fails. Otherwise it is the first success in iteration order, else the last address's error, else `NoAddresses()`. The callback is called on exactly the addresses up to and including the first success, in order (all of them if none succeeds, none if resolution fails). |
| `Net.EachAddrAsync` | src/net/mod.rs:106-124 | Gives the same outcome and the same ordered sequence of calls as `EachAddr`, where each attempt's result is the awaited output of the future the callback returns. |
| `Net.FirstSuccess` | src/net/mod.rs:92-96 | Returns the position of the first address whose attempt succeeds: every earlier attempt is an error, and the attempt at that position is `Ok`. Returns the list length when no attempt succeeds. |
| `Net.ResolutionErrorReturnedUntried` | src/net/mod.rs:90 | When resolution fails, that exact error is returned and the callback is never called. |
| `Net.FirstSuccessReturned` | src/net/mod.rs:92-94 | If position `k` holds the first address whose attempt succeeds, the result is `Ok` with that attempt's value. The callback was called on exactly `addrs[..k+1]`. |
| `Net.SucceedsIffSomeAddressSucceeds` | src/net/mod.rs:90-103 | The result is `Ok` if and only if resolution succeeds and the callback succeeds for at least one resolved address. |
| `Net.AllFailReturnsLastError` | src/net/mod.rs:95-98 | On a non-empty address list where every attempt fails, the callback is called on every address. The error returned is the one for the last address. |
| `Net.NoAddressIsInvalidInput` | src/net/mod.rs:98-103 | With no addresses, the callback is never called. The result is an error of kind `InvalidInput` with the message "could not resolve to any addresses". |
| `Net.AttemptsFollowIterationOrder` | src/net/mod.rs:92-96 | The addresses tried are a prefix of the resolved list. Every address tried before the last one failed. The number of calls is the first success's position plus one, or the full length if none succeeds. The result is exactly the callback's answer for the last address tried. |
| `Net.SingleAddressTriedOnce` | src/net/mod.rs:62-67 | Trying a single `SockAddr` returns the callback's own answer for it after exactly one call, and never the no-address error. |
| `Net.SingleYieldsItself` | src/net/mod.rs:62-67 | A `SockAddr` resolves without error to exactly one address, equal to itself. |
| `Net.SliceYieldsElementsInOrder` | src/net/mod.rs:70-76 | A slice resolves without error to its own elements, in the same order, with none added or dropped. |
| `Net.BorrowYieldsSame` | src/net/mod.rs:78-84 | A source borrowed any number of times yields exactly what the source itself yields, errors included. |
| `Net.OnlySystemResolutionFails` | src/net/mod.rs:62-84 | Resolution passes through every borrow to the underlying source. Only a source backed by `std::net::ToSocketAddrs` can fail. |

## Left out

- The `std::net::ToSocketAddrs`-backed impls (src/net/mod.rs:31-60) are not modelled. They do system/DNS resolution. `AddrSource.Std` stands for them and carries only the outcome that resolution reports.
- `socket2::SockAddr` and its conversion from `SocketAddr` are not modelled. Addresses are an abstract type parameter.
- The callback is a function of the address alone. An `FnMut` callback whose answer depends on state captured from earlier calls is not modelled. Neither is any side effect of the callback other than being called, which the ghost `tried` log records.
- In `each_addr_async`, only the sequential outcome of `.await` is modelled. Polling, suspension, wakers and cancellation by dropping the future are not.
- `io::ErrorKind` has only the kinds listed in `Io.ErrorKind`. `io::Error` is reduced to a kind and a message. The OS error code and custom payloads are not modelled.
- `ToSockAddrs` is a public trait (src/net/mod.rs:22), but `AddrSource` is closed: it has only the impls in this file. An impl written elsewhere fits the model only as `Std` with a finite list of addresses. An impl whose iterator never ends is not modelled. For such an impl, `each_addr` never returns when every attempt fails. `OnlySystemResolutionFails` holds only for the impls in this file.
- The `socket` and `tcp` submodules (src/net/mod.rs:5-9) are socket I/O and are not part of this model.
- The example driver in compio/examples/driver.rs only uses the proactor (`Proactor`, `push`/`poll`/`pop`, `SharedFd`, `OpCode`). That driver is not part of this model: its implementation is not in the repository files modelled here, and the example does real file I/O.
