/** The greedy solver `troco_algoritmo_guloso`: coins are taken in the order
    given, each as many times as it fits into what is still owed. */
module GreedySolver {
  import opened Change

  /** The coins the greedy pass hands out and the amount it leaves unpaid. */
  datatype Outcome = Outcome(used: seq<int>, left: int)

  /** The greedy pass over `coins` starting from the amount `rem`: for each
      coin that fits, `rem // coin` copies of it, as one contiguous run. */
  function Run(coins: seq<int>, rem: int): Outcome
    requires Positive(coins)
    decreases |coins|
  {
    if coins == [] then Outcome([], rem)
    else
      var c := coins[0];
      if rem >= c then
        var q := rem / c;
        var rest := Run(coins[1..], rem - q * c);
        Outcome(Repeat(c, q) + rest.used, rest.left)
      else Run(coins[1..], rem)
  }

  /** Taking `rem // c` copies of a coin `c` that fits leaves less than `c`, and
      at least one copy is taken. */
  lemma TakeAsMany(rem: int, c: int)
    requires 0 < c <= rem
    ensures rem / c >= 1
    ensures 0 <= rem - (rem / c) * c < c
  {
    assert rem == (rem / c) * c + rem % c;
  }

  /** The coins handed out and the amount left add up to the amount owed. */
  lemma {:induction false} RunSum(coins: seq<int>, rem: int)
    requires Positive(coins)
    ensures Sum(Run(coins, rem).used) + Run(coins, rem).left == rem
    decreases |coins|
  {
    if coins != [] {
      var c, tail := coins[0], coins[1..];
      if rem >= c {
        var q := rem / c;
        var next := rem - q * c;
        var rest := Run(tail, next);
        assert Run(coins, rem) == Outcome(Repeat(c, q) + rest.used, rest.left);
        RunSum(tail, next);
        SumRepeat(c, q);
        SumAppend(Repeat(c, q), rest.used);
        assert c * q == q * c;
      } else {
        assert Run(coins, rem) == Run(tail, rem);
        RunSum(tail, rem);
      }
    }
  }

  /** Only coins of the list are handed out. */
  lemma {:induction false} RunFromCoins(coins: seq<int>, rem: int)
    requires Positive(coins)
    ensures AllFrom(Run(coins, rem).used, coins)
    decreases |coins|
  {
    if coins != [] {
      var c, tail := coins[0], coins[1..];
      var next := if rem >= c then rem - (rem / c) * c else rem;
      var q: nat := if rem >= c then rem / c else 0;
      var rest := Run(tail, next).used;
      RunFromCoins(tail, next);
      assert Run(coins, rem).used == Repeat(c, q) + rest;
      forall x | x in Repeat(c, q) + rest ensures x in coins {
        if x in rest {
          assert x in tail;
        } else {
          assert coins[0] == c;
        }
      }
    }
  }

  /** The amount left never grows, stays non-negative for a non-negative
      amount, and ends below every coin of the list. */
  lemma {:induction false} RunLeft(coins: seq<int>, rem: int)
    requires Positive(coins)
    ensures Run(coins, rem).left <= rem
    ensures rem >= 0 ==> 0 <= Run(coins, rem).left
    ensures forall k :: 0 <= k < |coins| ==> Run(coins, rem).left < coins[k]
    decreases |coins|
  {
    if coins != [] {
      var c, tail := coins[0], coins[1..];
      if rem >= c {
        TakeAsMany(rem, c);
      }
      var next := if rem >= c then rem - (rem / c) * c else rem;
      assert next < c && next <= rem && (rem >= 0 ==> next >= 0);
      RunLeft(tail, next);
      assert Run(coins, rem).left == Run(tail, next).left;
      assert forall k :: 1 <= k < |coins| ==> coins[k] == tail[k - 1];
    }
  }

  /** `q` zeros followed by the indices of `inner`, each one higher: the
      indices of a run of the first coin followed by those of the rest. */
  function ShiftedAfter(q: nat, inner: seq<nat>): (r: seq<nat>)
    ensures |r| == q + |inner|
    ensures forall t :: 0 <= t < q ==> r[t] == 0
    ensures forall t :: q <= t < |r| ==> r[t] == inner[t - q] + 1
  {
    if q == 0 then seq(|inner|, t requires 0 <= t < |inner| => inner[t] + 1)
    else [0] + ShiftedAfter(q - 1, inner)
  }

  /** The coins come out in list order: the t-th coin handed out is
      `coins[idx[t]]`, with `idx` non-decreasing, so each coin forms one
      contiguous run. */
  lemma {:induction false} RunInListOrder(coins: seq<int>, rem: int) returns (idx: seq<nat>)
    requires Positive(coins)
    ensures |idx| == |Run(coins, rem).used|
    ensures forall t :: 0 <= t < |idx| ==> idx[t] < |coins| && Run(coins, rem).used[t] == coins[idx[t]]
    ensures forall t, u :: 0 <= t <= u < |idx| ==> idx[t] <= idx[u]
    decreases |coins|
  {
    if coins == [] {
      idx := [];
    } else {
      var c, tail := coins[0], coins[1..];
      var q: nat := if rem >= c then rem / c else 0;
      var next := rem - q * c;
      var rest := Run(tail, next).used;
      var used := Run(coins, rem).used;
      if rem >= c {
        assert used == Repeat(c, q) + rest;
      } else {
        assert Repeat(c, q) + rest == rest;
      }
      var inner := RunInListOrder(tail, next);
      idx := ShiftedAfter(q, inner);
      forall t | 0 <= t < |idx| ensures idx[t] < |coins| && used[t] == coins[idx[t]] {
        if t >= q {
          assert used[t] == rest[t - q] == tail[inner[t - q]];
        }
      }
    }
  }

  /** `troco_algoritmo_guloso`: the greedy pass, then `(-1, [])` unless it
      paid the amount exactly. */
  method GreedyChange(coins: seq<int>, amount: int) returns (count: int, used: seq<int>)
    requires Positive(coins)
    ensures Run(coins, amount).left == 0 ==> count == |Run(coins, amount).used| && used == Run(coins, amount).used
    ensures count == -1 <==> Run(coins, amount).left != 0
    ensures count == -1 ==> used == []
    ensures count != -1 ==> 0 <= count == |used| && Represents(used, coins, amount)
    ensures amount >= 0 && count == -1 ==>
      forall k :: 0 <= k < |coins| ==> 0 < Run(coins, amount).left < coins[k]
  {
    count := 0;
    used := [];
    var rem := amount;
    for i := 0 to |coins|
      invariant count == |used|
      invariant used + Run(coins[i..], rem).used == Run(coins, amount).used
      invariant Run(coins[i..], rem).left == Run(coins, amount).left
      invariant Sum(used) + rem == amount
      invariant AllFrom(used, coins)
      invariant rem <= amount && (amount >= 0 ==> 0 <= rem)
      invariant forall k :: 0 <= k < i ==> rem < coins[k]
    {
      var c := coins[i];
      assert coins[i..][1..] == coins[i + 1..];
      if rem >= c {
        var q := rem / c;
        TakeAsMany(rem, c);
        count := count + q;
        SumRepeat(c, q);
        SumAppend(used, Repeat(c, q));
        used := used + Repeat(c, q);
        rem := rem - q * c;
      }
    }
    assert coins[|coins|..] == [];
    if rem != 0 {
      count, used := -1, [];
    }
  }
}
