# VisitorBook guestbook contract, modelled in Dafny

The VisitorBook contract is a guestbook that charges a fee. A caller signs it once, with a message and a payment of at least `fee` wei (this model treats `sign_guestbook` as accepting value; see "## Left out"). The contract records the caller in an append-only list `visitors` and sets its entry in the map `has_visited`. It logs a `Visit` event. Then it tries to send `fee` back to the caller as a reward, but only when its balance covers the fee. Three read-only queries report how many visitors there are, the visitor at a given index, and whether an address has visited.

The model is split over four files:

- `types.dfy` (module `Types`) holds addresses, 256-bit amounts, the four error kinds, the `Visit` event and the attempted reward transfer.
- `guestbook.dfy` (module `Guestbook`) treats the three storage fields as a value, `Book`. It defines the storage invariant `Valid` and gives `initialize` and `sign_guestbook` as functions on `Book`, with one lemma per rule of `sign_guestbook`. The invariant says that an address is in `visitors` exactly when its `has_visited` flag is set, and that `visitors` has no repeats.
- `runs.dfy` (module `Runs`) covers any sequence of `sign_guestbook` calls. Across such a sequence a flag, once set, stays set. An address that was not flagged ends up flagged exactly when one of the calls came from it and paid the fee. The length of `visitors` equals the number of distinct visitors.
- `visitor_book.dfy` (module `Contract`) holds the contract as a class, `VisitorBook`. Its fields are updated in place: `fee`, `visitors`, `hasVisited`, plus the event log. The constructor models a freshly deployed contract whose storage is all zero. `Initialize` and `SignGuestbook` are methods proved against `Guestbook.Initialize` and `Guestbook.Sign`. The three getters are functions that only read, so they cannot change state. Two client methods, `ScenarioUnderpaid` and `ScenarioTransferFailure`, drive a fresh contract through an underpaid call, a call whose reward transfer fails, and a repeat call. Their assertions are proved from the method contracts alone.

The host supplies four things the code reads: the caller (`msg::sender()`), the attached value (`msg::value()`), the contract balance (`contract::balance()`) and the outcome of `transfer_eth`. The model takes all four as one explicit `Context` parameter. The transfer the call attempted, if any, comes back as the out-parameter `payout`.

`sign_guestbook` is modelled in the order the code runs. If the reward transfer fails, the call returns `TransferFailed`, but the registration and the event were already written before that point (src/lib.rs:64-83). Whether the host then discards those writes is not visible in this code. `Guestbook.SignReverting` models a host that discards every write of a call that returns an error. A lemma proves the two models differ exactly when the transfer fails. The class uses the as-written model.

`initialize` has no one-shot guard in the code. Calling it again sets the fee back to 100, so it is idempotent, and the model keeps it that way. Until `initialize` runs, `fee` reads as zero, so every payment passes the fee check. The model keeps that too.

## Model

| member | source | states |
|---|---|---|
| Guestbook.Empty | src/lib.rs:20-27 | freshly deployed storage has a zero fee, no visitor flagged, and satisfies the storage invariant |
| Guestbook.Initialize | src/lib.rs:39-42 | `initialize` sets the fee to 100 and leaves `visitors` and `has_visited` exactly as they were |
| Guestbook.InitializeIdempotent | src/lib.rs:39-42 | calling `initialize` twice gives the same storage as once, and it preserves the storage invariant |
| Guestbook.Sign | src/lib.rs:45-86 | one `sign_guestbook` call never changes the fee; `visitors` either stays or gains exactly the caller at the end; a flag is set afterwards iff it was set before or it is the caller's and the caller paid at least the fee; the storage invariant (lockstep, no duplicates) is preserved |
| Guestbook.SignUnderpaid | src/lib.rs:50-57 | a payment below the fee returns `InsufficientPayment{caller, payment}` even for an already-registered caller (payment is checked first); storage, events and transfers are untouched |
| Guestbook.SignDuplicate | src/lib.rs:59-62 | a paying caller whose flag is set gets `AlreadyVisited`, and storage, events and transfers are untouched |
| Guestbook.SignRegisters | src/lib.rs:64-73 | an admitted call appends exactly the caller (length grows by one, earlier entries kept), sets the caller's flag, leaves every other flag and the fee as they were, and logs `Visit{caller, message}` |
| Guestbook.SignReward | src/lib.rs:75-85 | after registration a transfer of exactly `fee` to the caller is attempted iff balance >= fee; the call errs iff that transfer was attempted and failed, and then the error is `TransferFailed{caller, fee}` |
| Guestbook.TransferFailureKeepsRegistration | src/lib.rs:64-83 | a `TransferFailed` result implies both checks passed and the caller was already appended, flagged and logged |
| Guestbook.SignWritesIffAdmitted | src/lib.rs:50-67 | storage changes, and an event is logged, iff the payment covers the fee and the caller has not visited |
| Guestbook.SignTwice | src/lib.rs:59-67 | after a paying call from an address, a second paying call from the same address gets `AlreadyVisited`, changes nothing, and the list has grown by at most one over both calls |
| Guestbook.SignReverting | src/lib.rs:76-85 | under a host that discards an erroring call's writes, the result is the same as as-written, an error leaves storage and the log untouched, and success is identical to as-written |
| Guestbook.RevertingDiffersOnlyOnTransferFailure | src/lib.rs:76-83 | the as-written and reverting storages differ exactly when the call returns `TransferFailed` |
| Runs.Run | src/lib.rs:60-67 | over any sequence of sign calls the fee is constant, `visitors` only grows by appending (old list is a prefix) and by at most one per call, and the storage invariant is preserved |
| Runs.RunKeepsVisited | src/lib.rs:65-67 | once `has_visited[a]` is true it stays true after any further sign calls |
| Runs.RunVisitedNeedsOwnCall | src/lib.rs:50-67 | an address that was not flagged becomes flagged only if one of the calls came from it with a payment of at least the fee |
| Runs.RunOwnPaidCallFlags | src/lib.rs:50-67 | if any call of a run comes from `a` and pays at least the fee, `has_visited[a]` is true at the end of the run |
| Runs.RunVisitedIffOwnPaidCall | src/lib.rs:50-67 | an address unflagged before a run is flagged after it iff some call of the run came from it with a payment of at least the fee |
| Runs.DistinctCardinality | src/lib.rs:88-91 | a list without repeats has as many distinct elements as entries |
| Runs.VisitorsCountVisited | src/lib.rs:88-91 | under the invariant the length of `visitors` equals the number of flagged addresses |
| Contract.VisitorBook.constructor | src/lib.rs:20-27 | a new contract has all-zero storage, an empty event log and satisfies the invariant |
| Contract.VisitorBook.Initialize | src/lib.rs:39-42 | the method sets `fee` to 100, modifies only `fee`, and keeps the invariant |
| Contract.VisitorBook.SignGuestbook | src/lib.rs:45-86 | the in-place method leaves storage, result and attempted transfer as `Guestbook.Sign` gives them, appends the event (if any) to the log, and keeps the invariant |
| Contract.VisitorBook.TotalVisitors | src/lib.rs:88-91 | `get_total_visitors` is the number of distinct addresses that have visited |
| Contract.VisitorBook.VisitorAtIndex | src/lib.rs:93-98 | `get_visitor_at_index(i)` is `Ok(visitors[i])`, an address that has visited, iff i < total; otherwise `IndexOutOfBounds` |
| Contract.VisitorBook.HasAddressVisited | src/lib.rs:100-103 | `has_address_visited(a)` is true iff `a` appears in `visitors` |

## Left out

- ABI encoding, entry-point dispatch and the error and event encodings produced by the Stylus SDK macros (src/lib.rs:1-35) are not modelled. They mostly decide how calls and results are encoded. One exception changes behaviour, described in the next line.
- Contract.VisitorBook.SignGuestbook: models `sign_guestbook` as a method that accepts value. In the code it carries no `#[payable]` attribute (src/lib.rs:44-45). The entry point the `#[public]` macro generates then refuses any call whose value is not zero, before the body runs. As deployed, once `initialize` has set the fee to 100, no call can pass the fee check and nobody can register. The model leaves out that refusal so that the body's own rules can be stated.
- The host lookups `msg::sender()`, `msg::value()` and `contract::balance()` are inputs in `Context`. The model does not relate the balance to the payment just received.
- `transfer_eth` is modelled only by its outcome, a boolean in `Context`. The reward leaving the balance is not modelled.
- `evm::log` is modelled as appending a `Visit` value to the class's `log` field. Topic and data encoding are not modelled.
- Whether the host rolls back storage when a call returns an error is host behaviour. The class follows the code's sequential order, and `Guestbook.SignReverting` states the alternative.
- Contract.VisitorBook.TotalVisitors: returns an unbounded `nat` instead of a `U256`. The length of `visitors` cannot reach 2^256, so `U256::from(len)` never truncates.
