/** The storage of the VisitorBook contract as a value, and what one call of
    `initialize` or `sign_guestbook` does to it. The class in visitor_book.dfy
    is proved against these functions. */
module Guestbook {
  import opened Types

  /** The fee `initialize` installs, in wei. */
  const INITIAL_FEE: U256 := 100

  /** The three storage fields: `fee`, `visitors` and `has_visited`. */
  datatype Book = Book(fee: U256, visitors: seq<Address>, hasVisited: map<Address, bool>)

  /** Reads `has_visited[a]`; storage that was never written reads as false. */
  predicate Flag(b: Book, a: Address) {
    a in b.hasVisited && b.hasVisited[a]
  }

  /** The addresses whose `has_visited` flag is set. */
  function VisitedSet(b: Book): set<Address> {
    set a | a in b.hasVisited && Flag(b, a)
  }

  predicate NoDuplicates(s: seq<Address>) {
    forall i, j :: 0 <= i < j < |s| ==> s[i] != s[j]
  }

  /** The storage invariant: `visitors` lists each flagged address exactly once,
      and nothing else. */
  ghost predicate Valid(b: Book) {
    && NoDuplicates(b.visitors)
    && (forall i :: 0 <= i < |b.visitors| ==> Flag(b, b.visitors[i]))
    && (forall a :: Flag(b, a) ==> a in b.visitors)
  }

  /** Storage of a freshly deployed contract: every slot zero. */
  function Empty(): (b: Book)
    ensures Valid(b) && b.fee == 0
    ensures forall a :: !Flag(b, a)
  {
    Book(0, [], map[])
  }

  /** `initialize`: sets `fee` to 100 and leaves everything else as it was. */
  function Initialize(b: Book): (r: Book)
    ensures r.fee == INITIAL_FEE
    ensures r.visitors == b.visitors && r.hasVisited == b.hasVisited
  {
    b.(fee := INITIAL_FEE)
  }

  lemma InitializeIdempotent(b: Book)
    ensures Initialize(Initialize(b)) == Initialize(b)
    ensures Valid(b) ==> Valid(Initialize(b))
  {
  }

  /** What `sign_guestbook` obtains from the host instead of from storage:
      `msg::sender()`, `msg::value()`, `contract::balance()` as read after
      the registration, and whether `transfer_eth` would succeed. */
  datatype Context = Context(caller: Address, value: U256, balance: U256, transferSucceeds: bool)

  /** The effect of one `sign_guestbook` call: the storage afterwards, the
      event it logged, the transfer it attempted, and what it returned. */
  datatype SignStep = SignStep(book: Book, event: Option<Visit>, payout: Option<Payout>, result: Result<()>)

  /** True when a call in context `ctx` gets past both checks on `b`. */
  predicate Admits(b: Book, ctx: Context) {
    b.fee <= ctx.value && !Flag(b, ctx.caller)
  }

  /** `sign_guestbook` as written: the payment check, then the duplicate check,
      then the registration and event, then the reward, whose failure is
      reported after the registration has been written. */
  function Sign(b: Book, ctx: Context, message: string): (r: SignStep)
    ensures r.book.fee == b.fee
    ensures r.book.visitors == b.visitors || r.book.visitors == b.visitors + [ctx.caller]
    ensures forall a :: Flag(r.book, a) <==> Flag(b, a) || (a == ctx.caller && b.fee <= ctx.value)
    ensures Valid(b) ==> Valid(r.book)
  {
    if ctx.value < b.fee then
      SignStep(b, None, None, Err(InsufficientPayment(ctx.caller, ctx.value)))
    else if Flag(b, ctx.caller) then
      SignStep(b, None, None, Err(AlreadyVisited))
    else
      var registered := b.(visitors := b.visitors + [ctx.caller],
                           hasVisited := b.hasVisited[ctx.caller := true]);
      var event := Some(Visit(ctx.caller, message));
      if b.fee <= ctx.balance then
        var payout := Some(Payout(ctx.caller, b.fee));
        if ctx.transferSucceeds then SignStep(registered, event, payout, Ok(()))
        else SignStep(registered, event, payout, Err(TransferFailed(ctx.caller, b.fee)))
      else
        SignStep(registered, event, None, Ok(()))
  }

  /** A payment below the fee is refused with the caller and the payment, whether
      or not the caller has visited before, and nothing is written or logged. */
  lemma SignUnderpaid(b: Book, ctx: Context, message: string)
    requires ctx.value < b.fee
    ensures var r := Sign(b, ctx, message);
      && r.result == Err(InsufficientPayment(ctx.caller, ctx.value))
      && r.book == b && r.event == None && r.payout == None
  {
  }

  /** A paying caller who has already visited is refused, and nothing changes. */
  lemma SignDuplicate(b: Book, ctx: Context, message: string)
    requires b.fee <= ctx.value && Flag(b, ctx.caller)
    ensures var r := Sign(b, ctx, message);
      && r.result == Err(AlreadyVisited)
      && r.book == b && r.event == None && r.payout == None
  {
  }

  /** An admitted call appends exactly the caller, sets exactly its flag, and logs
      one Visit event with the caller and the message. */
  lemma SignRegisters(b: Book, ctx: Context, message: string)
    requires Admits(b, ctx)
    ensures var r := Sign(b, ctx, message);
      && r.book.visitors == b.visitors + [ctx.caller]
      && |r.book.visitors| == |b.visitors| + 1
      && r.book.fee == b.fee
      && Flag(r.book, ctx.caller)
      && (forall a :: a != ctx.caller ==> Flag(r.book, a) == Flag(b, a))
      && r.event == Some(Visit(ctx.caller, message))
  {
  }

  /** The reward: exactly `fee` is sent to the caller when the balance covers it,
      nothing is sent otherwise, and only a failed transfer turns the admitted
      call into an error. */
  lemma SignReward(b: Book, ctx: Context, message: string)
    requires Admits(b, ctx)
    ensures var r := Sign(b, ctx, message);
      && (r.payout.Some? <==> b.fee <= ctx.balance)
      && (r.payout.Some? ==> r.payout.value == Payout(ctx.caller, b.fee))
      && (r.result.Err? <==> b.fee <= ctx.balance && !ctx.transferSucceeds)
      && (r.result.Err? ==> r.result.error == TransferFailed(ctx.caller, b.fee))
  {
  }

  /** When the transfer fails, the registration and the event have already been
      made, and the call still reports TransferFailed. */
  lemma TransferFailureKeepsRegistration(b: Book, ctx: Context, message: string)
    requires Sign(b, ctx, message).result.Err?
    requires Sign(b, ctx, message).result.error.TransferFailed?
    ensures var r := Sign(b, ctx, message);
      && Admits(b, ctx)
      && r.book.visitors == b.visitors + [ctx.caller]
      && Flag(r.book, ctx.caller)
      && r.event == Some(Visit(ctx.caller, message))
      && r.result.error == TransferFailed(ctx.caller, b.fee)
  {
  }

  /** The storage is touched exactly when both checks pass: every refusal leaves
      it as it was, and every admitted call (even one whose transfer fails)
      changes it. */
  lemma SignWritesIffAdmitted(b: Book, ctx: Context, message: string)
    ensures Sign(b, ctx, message).book != b <==> Admits(b, ctx)
    ensures Sign(b, ctx, message).event.Some? <==> Admits(b, ctx)
  {
  }

  /** Signing twice from one address: the second paying call is refused as a
      duplicate and the list grows by at most one over both calls. */
  lemma SignTwice(b: Book, ctx: Context, ctx': Context, m: string, m': string)
    requires ctx'.caller == ctx.caller && b.fee <= ctx.value && b.fee <= ctx'.value
    ensures var first := Sign(b, ctx, m);
      var second := Sign(first.book, ctx', m');
      && Flag(first.book, ctx.caller)
      && second.result == Err(AlreadyVisited)
      && second.book == first.book
      && |second.book.visitors| <= |b.visitors| + 1
  {
  }

  /** `sign_guestbook` on a host that discards the storage writes and events of
      a call that returns an error. */
  function SignReverting(b: Book, ctx: Context, message: string): (r: SignStep)
    ensures r.result == Sign(b, ctx, message).result
    ensures r.result.Err? ==> r.book == b && r.event == None
    ensures r.result.Ok? ==> r == Sign(b, ctx, message)
  {
    var s := Sign(b, ctx, message);
    if s.result.Ok? then s else s.(book := b, event := None)
  }

  /** The code as written and the reverting host disagree on the storage exactly
      when the reward transfer fails. */
  lemma RevertingDiffersOnlyOnTransferFailure(b: Book, ctx: Context, message: string)
    ensures SignReverting(b, ctx, message).book != Sign(b, ctx, message).book
        <==> Sign(b, ctx, message).result.Err? && Sign(b, ctx, message).result.error.TransferFailed?
  {
  }
}
