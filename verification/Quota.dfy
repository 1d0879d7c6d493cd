/** Monotone byte accounting against a fixed cap. */
module Quota {
  import opened Prelude

  datatype QuotaError = Overflow | Exceeded(attempted: u64, limit: u64)

  /** What adding `amount` must give, in unbounded arithmetic. */
  function Transition(used: nat, limit: u64, amount: nat): (r: Result<u64, QuotaError>)
    ensures r.Ok? <==> used + amount <= limit
  {
    if used + amount > U64_MAX then Err(Overflow)
    else if used + amount > limit then Err(Exceeded(used + amount, limit))
    else Ok(used + amount)
  }

  class QuotaState {
    var used: u64
    const limit: u64

    predicate Valid()
      reads this
    {
      used <= limit
    }

    constructor (limit: u64)
      ensures Valid() && used == 0 && this.limit == limit
    {
      this.used, this.limit := 0, limit;
    }

    /** `consume`: one atomic transition; a refused amount leaves the state alone. */
    method Consume(amount: u64) returns (r: Result<u64, QuotaError>)
      requires Valid()
      modifies this
      ensures Valid()
      ensures r == Transition(old(used), limit, amount)
      ensures used == if r.Ok? then old(used) + amount else old(used)
    {
      if amount > U64_MAX - used {
        return Err(Overflow);
      }
      var next: u64 := used + amount;
      if next > limit {
        return Err(Exceeded(next, limit));
      }
      used := next;
      return Ok(next);
    }

    function Remaining(): u64
      requires Valid()
      reads this
    {
      limit - used
    }
  }

  function Sum(amounts: seq<u64>): nat {
    if amounts == [] then 0 else Sum(amounts[..|amounts| - 1]) + amounts[|amounts| - 1]
  }

  lemma {:induction false} SumOfPrefix(amounts: seq<u64>, k: nat)
    requires k <= |amounts|
    ensures Sum(amounts[..k]) <= Sum(amounts)
    decreases |amounts|
  {
    if k < |amounts| {
      SumOfPrefix(amounts[..|amounts| - 1], k);
      assert amounts[..|amounts| - 1][..k] == amounts[..k];
    } else {
      assert amounts[..k] == amounts;
    }
  }

  /** Consuming amounts one by one succeeds throughout exactly when their exact sum fits the cap. */
  method ConsumeAll(limit: u64, amounts: seq<u64>) returns (accepted: nat, used: u64)
    ensures accepted <= |amounts| && used == Sum(amounts[..accepted]) <= limit
    ensures accepted < |amounts| ==> Sum(amounts[..accepted + 1]) > limit
    ensures accepted == |amounts| <==> Sum(amounts) <= limit
  {
    var quota := new QuotaState(limit);
    accepted := 0;
    while accepted < |amounts|
      invariant accepted <= |amounts| && quota.Valid() && quota.limit == limit
      invariant quota.used == Sum(amounts[..accepted])
      decreases |amounts| - accepted
    {
      assert amounts[..accepted + 1][..accepted] == amounts[..accepted];
      var next := quota.Consume(amounts[accepted]);
      if next.Err? {
        SumOfPrefix(amounts, accepted + 1);
        return accepted, quota.used;
      }
      accepted := accepted + 1;
    }
    assert amounts[..accepted] == amounts;
    return accepted, quota.used;
  }
}
