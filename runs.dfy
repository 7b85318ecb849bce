/** Sequences of `sign_guestbook` calls: what the per-address state machine
    Unvisited -> Visited guarantees over the contract's lifetime, and why the
    length of `visitors` counts the distinct visitors. */
module Runs {
  import opened Types
  import opened Guestbook

  /** One `sign_guestbook` call: its host context and its message. */
  datatype Call = Call(ctx: Context, message: string)

  /** The storage after the calls in order, each applied as written. */
  function Run(b: Book, calls: seq<Call>): (r: Book)
    ensures r.fee == b.fee
    ensures |b.visitors| <= |r.visitors| && r.visitors[..|b.visitors|] == b.visitors
    ensures |r.visitors| <= |b.visitors| + |calls|
    ensures Valid(b) ==> Valid(r)
    decreases |calls|
  {
    if calls == [] then b
    else Run(Sign(b, calls[0].ctx, calls[0].message).book, calls[1..])
  }

  /** Once an address is marked as visited it stays marked. */
  lemma {:induction false} RunKeepsVisited(b: Book, calls: seq<Call>, a: Address)
    requires Flag(b, a)
    ensures Flag(Run(b, calls), a)
    decreases |calls|
  {
    if calls != [] {
      RunKeepsVisited(Sign(b, calls[0].ctx, calls[0].message).book, calls[1..], a);
    }
  }

  /** An address becomes visited only through a call of its own that paid at
      least the fee. */
  lemma {:induction false} RunVisitedNeedsOwnCall(b: Book, calls: seq<Call>, a: Address)
    requires !Flag(b, a) && Flag(Run(b, calls), a)
    ensures exists k :: 0 <= k < |calls| && calls[k].ctx.caller == a && b.fee <= calls[k].ctx.value
    decreases |calls|
  {
    var b1 := Sign(b, calls[0].ctx, calls[0].message).book;
    if Flag(b1, a) {
      assert calls[0].ctx.caller == a && b.fee <= calls[0].ctx.value;
    } else {
      RunVisitedNeedsOwnCall(b1, calls[1..], a);
      var k :| 0 <= k < |calls[1..]| && calls[1..][k].ctx.caller == a && b1.fee <= calls[1..][k].ctx.value;
      assert calls[k + 1] == calls[1..][k];
    }
  }

  /** A call of a run that comes from `a` and pays at least the fee leaves `a`
      marked as visited at the end of the run. */
  lemma {:induction false} RunOwnPaidCallFlags(b: Book, calls: seq<Call>, a: Address, k: nat)
    requires k < |calls| && calls[k].ctx.caller == a && b.fee <= calls[k].ctx.value
    ensures Flag(Run(b, calls), a)
    decreases |calls|
  {
    var b1 := Sign(b, calls[0].ctx, calls[0].message).book;
    if k == 0 {
      RunKeepsVisited(b1, calls[1..], a);
    } else {
      assert calls[1..][k - 1] == calls[k];
      RunOwnPaidCallFlags(b1, calls[1..], a, k - 1);
    }
  }

  /** Both directions together: an address unmarked before a run is marked after
      it exactly when one of the run's calls comes from it and pays the fee. */
  lemma RunVisitedIffOwnPaidCall(b: Book, calls: seq<Call>, a: Address)
    requires !Flag(b, a)
    ensures Flag(Run(b, calls), a)
        <==> exists k :: 0 <= k < |calls| && calls[k].ctx.caller == a && b.fee <= calls[k].ctx.value
  {
    if Flag(Run(b, calls), a) {
      RunVisitedNeedsOwnCall(b, calls, a);
    }
    if exists k :: 0 <= k < |calls| && calls[k].ctx.caller == a && b.fee <= calls[k].ctx.value {
      var k :| 0 <= k < |calls| && calls[k].ctx.caller == a && b.fee <= calls[k].ctx.value;
      RunOwnPaidCallFlags(b, calls, a, k);
    }
  }

  /** The elements of a sequence without repeats are as many as its length. */
  lemma {:induction false} DistinctCardinality(s: seq<Address>)
    requires NoDuplicates(s)
    ensures |set x | x in s| == |s|
  {
    if s != [] {
      var t := s[..|s| - 1];
      var last := s[|s| - 1];
      assert NoDuplicates(t);
      DistinctCardinality(t);
      assert last !in t by {
        forall i | 0 <= i < |t| ensures t[i] != last {
          assert t[i] == s[i];
        }
      }
      assert s == t + [last];
      assert (set x | x in s) == (set x | x in t) + {last};
    }
  }

  /** Under the storage invariant the number of entries of `visitors` is the
      number of distinct addresses whose flag is set. */
  lemma VisitorsCountVisited(b: Book)
    requires Valid(b)
    ensures |VisitedSet(b)| == |b.visitors|
  {
    DistinctCardinality(b.visitors);
    assert VisitedSet(b) == set x | x in b.visitors;
  }
}
