/** The nonce allocator shared by all senders. */
module Nonces {
  import opened Words
  import opened Wrappers

  type Address = nat

  datatype Call = Call(from: Address, reported: Option<nat>)

  function Allocated(next: map<Address, nat>, c: Call): (nat, map<Address, nat>) {
    var said := if c.reported.Some? then c.reported.value else 0;
    var nonce := if c.from in next && next[c.from] > said then next[c.from] else said;
    (nonce, next[c.from := (nonce + 1) % TWO64])
  }

  class Allocator {
    var next: map<Address, nat>

    constructor ()
      ensures next == map[]
    {
      next := map[];
    }

    /** The section under the lock: `reported` is what the chain said, if it said anything. */
    method Allocate(from: Address, reported: Option<nat>) returns (nonce: nat)
      modifies this
      ensures (nonce, next) == Allocated(old(next), Call(from, reported))
    {
      nonce := 0;
      if reported.Some? {
        nonce := reported.value;
      }
      if from in next && next[from] > nonce {
        nonce := next[from];
      }
      next := next[from := (nonce + 1) % TWO64];
    }
  }

  /** The table after a sequence of calls, in whatever order the senders got the lock. */
  function Table(calls: seq<Call>): map<Address, nat> {
    if calls == [] then map[] else Allocated(Table(calls[..|calls| - 1]), calls[|calls| - 1]).1
  }

  function NonceOf(calls: seq<Call>, i: nat): nat
    requires i < |calls|
  {
    Allocated(Table(calls[..i]), calls[i]).0
  }

  ghost predicate FitCalls(calls: seq<Call>) {
    forall i :: 0 <= i < |calls| && calls[i].reported.Some? ==> calls[i].reported.value < TWO64
  }

  lemma {:induction false} TableFits(calls: seq<Call>)
    requires FitCalls(calls)
    ensures forall a :: a in Table(calls) ==> Table(calls)[a] < TWO64
  {
    if calls != [] { TableFits(calls[..|calls| - 1]); }
  }

  lemma NonceFits(calls: seq<Call>, i: nat)
    requires FitCalls(calls) && i < |calls|
    ensures NonceOf(calls, i) < TWO64
    ensures calls[i].reported.Some? ==> NonceOf(calls, i) >= calls[i].reported.value
  {
    TableFits(calls[..i]);
  }

  /** No earlier call for this address was handed the last nonce there is. */
  ghost predicate RoomBefore(calls: seq<Call>, j: nat)
    requires j <= |calls|
  {
    forall i :: 0 <= i < j && j < |calls| && calls[i].from == calls[j].from ==> NonceOf(calls, i) != TWO64 - 1
  }

  lemma NonceIs(calls: seq<Call>, i: nat)
    requires i < |calls|
    ensures Table(calls[..i + 1]) == Table(calls[..i])[calls[i].from := (NonceOf(calls, i) + 1) % TWO64]
    ensures calls[i].from in Table(calls[..i]) ==> NonceOf(calls, i) >= Table(calls[..i])[calls[i].from]
  {
    assert calls[..i + 1][..i] == calls[..i];
  }

  /** While there was room, the table holds, for an address, more than any nonce it was given. */
  lemma {:induction false} TableIsAhead(calls: seq<Call>, i: nat, n: nat)
    requires FitCalls(calls) && i < n <= |calls|
    requires forall m :: i <= m < n && calls[m].from == calls[i].from ==> NonceOf(calls, m) != TWO64 - 1
    ensures calls[i].from in Table(calls[..n]) && NonceOf(calls, i) < Table(calls[..n])[calls[i].from]
    decreases n
  {
    hide NonceOf;
    NonceFits(calls, n - 1);
    NonceIs(calls, n - 1);
    if i < n - 1 { TableIsAhead(calls, i, n - 1); }
  }

  /**
   * A call gets a nonce above every earlier one for its address, exactly when none of those was the largest uint64.
   * So nonces are never reused, in any interleaving and whatever the chain reports, short of that overflow.
   */
  lemma NoncesIncrease(calls: seq<Call>, j: nat)
    requires FitCalls(calls) && j < |calls|
    ensures (forall i :: 0 <= i < j && calls[i].from == calls[j].from ==> NonceOf(calls, i) < NonceOf(calls, j))
       <==> RoomBefore(calls, j)
  {
    NonceFits(calls, j);
    NonceIs(calls, j);
    hide NonceOf;
    if RoomBefore(calls, j) {
      forall i | 0 <= i < j && calls[i].from == calls[j].from ensures NonceOf(calls, i) < NonceOf(calls, j) {
        TableIsAhead(calls, i, j);
      }
    }
  }

  /** Call `i` is the last one before call `j` for its address. */
  ghost predicate LastBefore(calls: seq<Call>, i: nat, j: nat)
    requires j < |calls|
  {
    i < j && calls[i].from == calls[j].from && forall m :: i < m < j ==> calls[m].from != calls[j].from
  }

  lemma {:induction false} TableHolds(calls: seq<Call>, i: nat, n: nat)
    requires i < n <= |calls| && forall m :: i < m < n ==> calls[m].from != calls[i].from
    ensures var t, a := Table(calls[..n]), calls[i].from; a in t && t[a] == (NonceOf(calls, i) + 1) % TWO64
    decreases n
  {
    hide NonceOf, Table;
    NonceIs(calls, n - 1);
    if i < n - 1 { TableHolds(calls, i, n - 1); }
  }

  lemma {:induction false} TableLacks(calls: seq<Call>, a: Address, n: nat)
    requires n <= |calls| && forall m :: 0 <= m < n ==> calls[m].from != a
    ensures a !in Table(calls[..n])
    decreases n
  {
    if n > 0 {
      hide NonceOf, Table;
      NonceIs(calls, n - 1);
      TableLacks(calls, a, n - 1);
    }
  }

  /**
   * No gaps: a nonce is what the chain reports, or one past the last nonce handed out for the address if that is more.
   * The first for an address is what the chain reports, or 0.
   */
  lemma NoncesHaveNoGaps(calls: seq<Call>, j: nat)
    requires j < |calls|
    ensures var said := if calls[j].reported.Some? then calls[j].reported.value else 0;
            && (forall i: nat :: LastBefore(calls, i, j) ==>
                  var next := (NonceOf(calls, i) + 1) % TWO64; NonceOf(calls, j) == if next > said then next else said)
            && ((forall i :: 0 <= i < j ==> calls[i].from != calls[j].from) ==> NonceOf(calls, j) == said)
  {
    hide Table;
    forall i: nat | LastBefore(calls, i, j)
      ensures var t, a := Table(calls[..j]), calls[j].from; a in t && t[a] == (NonceOf(calls, i) + 1) % TWO64
    {
      TableHolds(calls, i, j);
    }
    if forall i :: 0 <= i < j ==> calls[i].from != calls[j].from { TableLacks(calls, calls[j].from, j); }
  }

  /** Past the largest uint64 they start over: the third of these calls gets the nonce of the first. */
  lemma NoncesRepeat(a: Address)
    ensures var calls := [Call(a, None), Call(a, Some(TWO64 - 1)), Call(a, None)];
            NonceOf(calls, 0) == 0 && NonceOf(calls, 1) == TWO64 - 1 && NonceOf(calls, 2) == 0
  {
    var calls := [Call(a, None), Call(a, Some(TWO64 - 1)), Call(a, None)];
    NonceIs(calls, 0);
    NonceIs(calls, 1);
    assert calls[..0] == [];
  }

  /** The calls for one address. */
  function Own(calls: seq<Call>, a: Address): seq<Call> {
    if calls == [] then []
    else Own(calls[..|calls| - 1], a) + (if calls[|calls| - 1].from == a then [calls[|calls| - 1]] else [])
  }

  lemma {:induction false} TableFromOwnCalls(calls: seq<Call>, a: Address)
    ensures var t, own := Table(calls), Table(Own(calls, a)); if a in own then a in t && t[a] == own[a] else a !in t
  {
    if calls != [] {
      var before, c := calls[..|calls| - 1], calls[|calls| - 1];
      TableFromOwnCalls(before, a);
      var own := Own(before, a);
      assert own + [] == own && (own + [c])[..|own|] == own;
    }
  }

  /**
   * Other addresses do not matter: a call gets what it would get if only the calls for its own address had been made.
   */
  lemma OtherAddressesDoNotMatter(calls: seq<Call>, j: nat)
    requires j < |calls|
    ensures var own := Own(calls[..j], calls[j].from); NonceOf(calls, j) == NonceOf(own + [calls[j]], |own|)
  {
    var own := Own(calls[..j], calls[j].from);
    TableFromOwnCalls(calls[..j], calls[j].from);
    assert (own + [calls[j]])[..|own|] == own;
  }
}
