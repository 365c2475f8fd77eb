/** How the two solvers relate: the dynamic-programming count never exceeds a
    count the greedy solver reports, and on a non-canonical coin system it can
    be strictly smaller. */
module Comparison {
  import opened Change
  import opened ExactSolver
  import opened GreedySolver

  /** Whenever the greedy pass pays `amount` exactly, the table's count for the
      same coins, in any order (or any superset of them), is no larger. */
  lemma Dominance(greedyCoins: seq<int>, exactCoins: seq<int>, amount: nat)
    requires Positive(greedyCoins) && Positive(exactCoins)
    requires forall c :: c in greedyCoins ==> c in exactCoins
    requires Run(greedyCoins, amount).left == 0
    ensures MinCoins(exactCoins, amount).Fin?
    ensures MinCoins(exactCoins, amount).n <= |Run(greedyCoins, amount).used|
  {
    var used := Run(greedyCoins, amount).used;
    RunSum(greedyCoins, amount);
    RunFromCoins(greedyCoins, amount);
    assert Represents(used, exactCoins, amount);
    MinCoinsOptimal(exactCoins, amount, used);
  }

  /** No coin pays a nonzero amount, and one coin pays only its own value. */
  lemma ShortPayments(s: seq<int>, coins: seq<int>, v: int)
    requires Represents(s, coins, v)
    ensures |s| == 0 ==> v == 0
    ensures |s| == 1 ==> v in coins
  {
    if |s| == 1 {
      assert s[1..] == [] && s[0] in s;
      assert Sum(s) == s[0] + Sum(s[1..]);
    }
  }

  /** Coins 4, 3, 1 and the amount 6: the greedy pass hands out 4 + 1 + 1,
      three coins, while the table finds two. */
  lemma GreedyIsSuboptimal()
    ensures Run([4, 3, 1], 6) == Outcome([4, 1, 1], 0)
    ensures MinCoins([1, 3, 4], 6) == Fin(2)
  {
    assert Run([1], 2) == Outcome([1, 1], 0) by {
      assert Repeat(1, 2) == [1, 1];
    }
    assert Run([3, 1], 2) == Run([1], 2) by {
      assert [3, 1][1..] == [1];
    }
    assert Run([4, 3, 1], 6) == Outcome([4, 1, 1], 0) by {
      assert [4, 3, 1][1..] == [3, 1];
    }
    var coins := [1, 3, 4];
    assert Positive(coins);
    assert Represents([3, 3], coins, 6);
    MinCoinsOptimal(coins, 6, [3, 3]);
    CompositionSound(coins, 6);
    ShortPayments(Composition(coins, 6), coins, 6);
  }
}
