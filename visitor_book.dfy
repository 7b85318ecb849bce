/** The VisitorBook contract as an object whose storage fields the public
    methods update in place. Each method is proved against the storage
    functions of module Guestbook. */
module Contract {
  import opened Types
  import opened Guestbook
  import Runs

  class VisitorBook {
    var fee: U256
    var visitors: seq<Address>
    var hasVisited: map<Address, bool>
    /** The events emitted through the host's log, oldest first. */
    var log: seq<Visit>

    /** The storage fields as a value. */
    function Storage(): Book
      reads this
    {
      Book(fee, visitors, hasVisited)
    }

    ghost predicate Valid()
      reads this
    {
      Guestbook.Valid(Storage())
    }

    /** A freshly deployed contract: all storage zero, no events. */
    constructor ()
      ensures Valid()
      ensures Storage() == Empty() && log == []
    {
      fee := 0;
      visitors := [];
      hasVisited := map[];
      log := [];
    }

    /** `initialize`: installs the fee of 100 and touches nothing else. */
    method Initialize()
      requires Valid()
      modifies this`fee
      ensures Valid()
      ensures Storage() == Guestbook.Initialize(old(Storage()))
    {
      fee := INITIAL_FEE;
    }

    /** `sign_guestbook`, with the host's answers passed in `ctx`; `payout` is
        the reward transfer the call attempted, if any. */
    method SignGuestbook(ctx: Context, message: string) returns (result: Result<()>, payout: Option<Payout>)
      requires Valid()
      modifies this
      ensures Valid()
      ensures var step := Sign(old(Storage()), ctx, message);
        && Storage() == step.book
        && result == step.result
        && payout == step.payout
        && log == old(log) + (if step.event.Some? then [step.event.value] else [])
    {
      payout := None;
      var visitor, value := ctx.caller, ctx.value;
      if value < fee {
        result := Err(InsufficientPayment(visitor, value));
        return;
      }
      if Flag(Storage(), visitor) {
        result := Err(AlreadyVisited);
        return;
      }
      visitors := visitors + [visitor];
      hasVisited := hasVisited[visitor := true];
      log := log + [Visit(visitor, message)];
      if ctx.balance >= fee {
        payout := Some(Payout(visitor, fee));
        if !ctx.transferSucceeds {
          result := Err(TransferFailed(visitor, fee));
          return;
        }
      }
      result := Ok(());
    }

    /** `get_total_visitors`: the number of distinct addresses that have visited. */
    function TotalVisitors(): (n: nat)
      reads this
      requires Valid()
      ensures n == |VisitedSet(Storage())|
    {
      Runs.VisitorsCountVisited(Storage());
      |visitors|
    }

    /** `get_visitor_at_index`: the address registered at that position, which
        has visited; IndexOutOfBounds past the end. */
    function VisitorAtIndex(index: U256): (r: Result<Address>)
      reads this
      requires Valid()
      ensures r.Ok? <==> index < |visitors|
      ensures r.Ok? ==> r.value == visitors[index] && HasAddressVisited(r.value)
      ensures r.Err? ==> r.error == IndexOutOfBounds
    {
      if index < |visitors| then Ok(visitors[index]) else Err(IndexOutOfBounds)
    }

    /** `has_address_visited`: whether the address appears in `visitors`. */
    function HasAddressVisited(address: Address): (v: bool)
      reads this
      requires Valid()
      ensures v <==> address in visitors
    {
      Flag(Storage(), address)
    }
  }

  /** After deployment and `initialize` the fee is 100, there are no visitors,
      index 5 is out of bounds, and a caller paying 50 is refused with
      InsufficientPayment carrying its address and 50, and is not registered. */
  method ScenarioUnderpaid(x: Address)
  {
    var book := new VisitorBook();
    book.Initialize();
    assert book.fee == 100 && book.visitors == [];
    assert book.VisitorAtIndex(5) == Err(IndexOutOfBounds);

    var result, _ := book.SignGuestbook(Context(x, 50, 0, true), "hi");
    assert result == Err(InsufficientPayment(x, 50));
    assert book.visitors == [] && !book.HasAddressVisited(x);
  }

  /** After `initialize`, a caller paying 100 when the balance is exactly 100
      gets TransferFailed for 100 from the failed reward, yet is registered at
      index 0; signing again with 100 is refused with AlreadyVisited, and the
      list and the event log still hold one entry each. */
  method ScenarioTransferFailure(x: Address, balance: U256)
  {
    var book := new VisitorBook();
    book.Initialize();

    var result, payout := book.SignGuestbook(Context(x, 100, 100, false), "hi");
    assert result == Err(TransferFailed(x, 100)) && payout == Some(Payout(x, 100));
    assert book.visitors == [x] && book.HasAddressVisited(x);
    assert book.VisitorAtIndex(0) == Ok(x);

    result, payout := book.SignGuestbook(Context(x, 100, balance, true), "again");
    assert result == Err(AlreadyVisited) && payout == None;
    assert book.visitors == [x] && |book.log| == 1;
  }
}
