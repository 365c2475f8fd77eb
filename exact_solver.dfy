/** The dynamic-programming solver `troco_programacao_dinamica`.

    The ghost functions MinCoins, Scan, Winner and Composition give, cell by
    cell, what the solver's two tables `min_moedas` and `moedas_utilizadas`
    hold once they are filled; the lemmas say what those values mean (an
    optimal way of paying the amount, the first coin in list order that
    attains the optimum, infinity exactly for unpayable amounts), and the
    methods fill real arrays and are proved to agree with them. */
module ExactSolver {
  import opened Change

  /** Cell `v` of `min_moedas` once the table is filled. */
  ghost function MinCoins(coins: seq<int>, v: nat): ExtInt
    requires Positive(coins)
    decreases v, 2 * |coins| + 1
  {
    if v == 0 then Fin(0) else Scan(coins, v, |coins|)
  }

  /** Cell `v` of `min_moedas` after the inner loop has looked at `coins[..j]`. */
  ghost function Scan(coins: seq<int>, v: nat, j: nat): ExtInt
    requires Positive(coins) && 0 < v && j <= |coins|
    decreases v, 2 * j
  {
    if j == 0 then Inf
    else if Improves(coins, v, j - 1) then Candidate(coins, v, j - 1)
    else Scan(coins, v, j - 1)
  }

  /** `min_moedas[v - moeda] + 1` for the coin `coins[j]`. */
  ghost function Candidate(coins: seq<int>, v: nat, j: nat): ExtInt
    requires Positive(coins) && j < |coins| && coins[j] <= v
    decreases v, 0
  {
    Plus1(MinCoins(coins, v - coins[j]))
  }

  /** The guard of the update: coin `coins[j]` fits and is strictly better
      than what cell `v` holds when that coin is reached. */
  ghost predicate Improves(coins: seq<int>, v: nat, j: nat)
    requires Positive(coins) && 0 < v && j < |coins|
    decreases v, 2 * j + 1
  {
    coins[j] <= v && Less(Candidate(coins, v, j), Scan(coins, v, j))
  }

  /** The index of the last coin among `coins[..j]` that updated cell `v`, or -1. */
  ghost function Winner(coins: seq<int>, v: nat, j: nat): (w: int)
    requires Positive(coins) && 0 < v && j <= |coins|
    ensures -1 <= w < j
    ensures w >= 0 ==> coins[w] <= v
  {
    if j == 0 then -1
    else if Improves(coins, v, j - 1) then j - 1
    else Winner(coins, v, j - 1)
  }

  /** Cell `v` of `moedas_utilizadas` once the table is filled. */
  ghost function Composition(coins: seq<int>, v: nat): seq<int>
    requires Positive(coins)
    decreases v
  {
    if v == 0 then []
    else
      var w := Winner(coins, v, |coins|);
      if w < 0 then [] else Composition(coins, v - coins[w]) + [coins[w]]
  }

  /** Paying `coins[j]` first and the rest optimally is optimal for `v`. */
  ghost predicate Attains(coins: seq<int>, v: nat, j: nat)
    requires Positive(coins) && 0 < v && j < |coins|
  {
    coins[j] <= v && Candidate(coins, v, j) == MinCoins(coins, v)
  }

  /** Cell `v` is finite exactly when some coin updated it, and then it holds
      that coin's candidate. */
  lemma {:induction false} WinnerMeaning(coins: seq<int>, v: nat, j: nat)
    requires Positive(coins) && 0 < v && j <= |coins|
    ensures Winner(coins, v, j) < 0 <==> Scan(coins, v, j) == Inf
    ensures Winner(coins, v, j) >= 0 ==>
      Scan(coins, v, j).Fin? && Scan(coins, v, j) == Candidate(coins, v, Winner(coins, v, j))
  {
    if j > 0 && !Improves(coins, v, j - 1) {
      WinnerMeaning(coins, v, j - 1);
    }
  }

  /** After the inner loop has passed coin `k`, cell `v` is no worse than that
      coin's candidate. */
  lemma {:induction false} ScanAtMost(coins: seq<int>, v: nat, j: nat, k: nat)
    requires Positive(coins) && 0 < v && k < j <= |coins| && coins[k] <= v
    ensures LessEq(Scan(coins, v, j), Candidate(coins, v, k))
  {
    if k < j - 1 {
      ScanAtMost(coins, v, j - 1, k);
    }
  }

  /** Every coin before the winner has a candidate strictly worse than the
      value the winner stored: this is the effect of the strict `<`. */
  lemma {:induction false} WinnerIsFirst(coins: seq<int>, v: nat, j: nat)
    requires Positive(coins) && 0 < v && j <= |coins| && Winner(coins, v, j) >= 0
    ensures forall k :: 0 <= k < Winner(coins, v, j) && coins[k] <= v ==>
      Less(Scan(coins, v, j), Candidate(coins, v, k))
  {
    var w := Winner(coins, v, j);
    if Improves(coins, v, j - 1) {
      forall k | 0 <= k < w && coins[k] <= v
        ensures Less(Scan(coins, v, j), Candidate(coins, v, k))
      {
        ScanAtMost(coins, v, w, k);
      }
    } else {
      WinnerIsFirst(coins, v, j - 1);
    }
  }

  /** A finite cell holds a way of paying its amount whose length is the
      cell's count; an infinite cell holds the empty composition. */
  lemma {:induction false} CompositionSound(coins: seq<int>, v: nat)
    requires Positive(coins)
    ensures MinCoins(coins, v).Fin? ==>
      Represents(Composition(coins, v), coins, v) && |Composition(coins, v)| == MinCoins(coins, v).n
    ensures MinCoins(coins, v) == Inf ==> Composition(coins, v) == []
    decreases v
  {
    if v > 0 {
      var w := Winner(coins, v, |coins|);
      WinnerMeaning(coins, v, |coins|);
      if w >= 0 {
        var c := coins[w];
        var rest := Composition(coins, v - c);
        CompositionSound(coins, v - c);
        SumAppend(rest, [c]);
        assert c in coins;
        assert AllFrom(rest + [c], coins) by {
          forall x | x in rest + [c] ensures x in coins {
            assert x in rest || x == c;
          }
        }
      }
    }
  }

  /** Every way of paying `v` uses at least as many coins as the cell holds:
      the count is the minimum. */
  lemma {:induction false} MinCoinsOptimal(coins: seq<int>, v: nat, s: seq<int>)
    requires Positive(coins) && Represents(s, coins, v)
    ensures MinCoins(coins, v).Fin? && MinCoins(coins, v).n <= |s|
    decreases |s|
  {
    if v > 0 {
      assert s != [];
      assert s[0] in s;
      var k :| 0 <= k < |coins| && coins[k] == s[0];
      var tail := s[1..];
      assert AllFrom(tail, coins) by {
        forall x | x in tail ensures x in coins {
          assert x in s;
        }
      }
      LengthAtMostSum(tail, coins);
      MinCoinsOptimal(coins, v - coins[k], tail);
      ScanAtMost(coins, v, |coins|, k);
    }
  }

  /** A finite count never exceeds the amount, so the line-42 test
      `min_moedas[valor] == valor + 1` is false on every input. */
  lemma MinCoinsBounded(coins: seq<int>, v: nat)
    requires Positive(coins)
    ensures MinCoins(coins, v).Fin? ==> 0 <= MinCoins(coins, v).n <= v
    ensures MinCoins(coins, v) != Fin(v + 1)
  {
    CompositionSound(coins, v);
    if MinCoins(coins, v).Fin? {
      LengthAtMostSum(Composition(coins, v), coins);
    }
  }

  /** The cell stays at infinity exactly when no sequence of coins pays the amount. */
  lemma InfIffUnrepresentable(coins: seq<int>, v: nat)
    requires Positive(coins)
    ensures MinCoins(coins, v) == Inf <==> !Representable(coins, v)
  {
    CompositionSound(coins, v);
    if Representable(coins, v) {
      var s :| Represents(s, coins, v);
      MinCoinsOptimal(coins, v, s);
    }
  }

  /** The stored composition of a nonzero payable amount ends with the first
      coin, in list order, that attains the minimum. */
  lemma TieBreak(coins: seq<int>, v: nat)
    requires Positive(coins) && 0 < v && MinCoins(coins, v).Fin?
    ensures var w := Winner(coins, v, |coins|);
      && 0 <= w < |coins|
      && |Composition(coins, v)| > 0
      && Composition(coins, v)[|Composition(coins, v)| - 1] == coins[w]
      && Attains(coins, v, w)
      && forall k :: 0 <= k < w ==> !Attains(coins, v, k)
  {
    WinnerMeaning(coins, v, |coins|);
    WinnerIsFirst(coins, v, |coins|);
  }

  /** Lines 18-39: fill `min_moedas` and `moedas_utilizadas` bottom-up. */
  method FillTables(coins: seq<int>, amount: nat) returns (best: array<ExtInt>, comp: array<seq<int>>)
    requires Positive(coins)
    ensures best.Length == amount + 1 && comp.Length == amount + 1
    ensures forall k :: 0 <= k <= amount ==> best[k] == MinCoins(coins, k) && comp[k] == Composition(coins, k)
  {
    best := new ExtInt[amount + 1](_ => Inf);
    best[0] := Fin(0);
    comp := new seq<int>[amount + 1](_ => []);
    for i := 1 to amount + 1
      invariant forall k :: 0 <= k < i ==> best[k] == MinCoins(coins, k) && comp[k] == Composition(coins, k)
      invariant forall k :: i <= k <= amount ==> best[k] == Inf && comp[k] == []
    {
      FillCell(coins, best, comp, i);
    }
  }

  /** Lines 31-39, the inner loop: settle cell `i` from the cells below it,
      scanning the coins in list order and keeping only strict improvements. */
  method FillCell(coins: seq<int>, best: array<ExtInt>, comp: array<seq<int>>, i: nat)
    requires Positive(coins) && 0 < i < best.Length == comp.Length
    requires forall k :: 0 <= k < i ==> best[k] == MinCoins(coins, k) && comp[k] == Composition(coins, k)
    requires best[i] == Inf && comp[i] == []
    modifies best, comp
    ensures best[i] == MinCoins(coins, i) && comp[i] == Composition(coins, i)
    ensures forall k :: 0 <= k < best.Length && k != i ==> best[k] == old(best[k]) && comp[k] == old(comp[k])
  {
    for j := 0 to |coins|
      invariant forall k :: 0 <= k < best.Length && k != i ==> best[k] == old(best[k]) && comp[k] == old(comp[k])
      invariant best[i] == Scan(coins, i, j)
      invariant var w := Winner(coins, i, j);
        comp[i] == if w < 0 then [] else Composition(coins, i - coins[w]) + [coins[w]]
    {
      var c := coins[j];
      assert c <= i ==> Plus1(best[i - c]) == Candidate(coins, i, j);
      if c <= i && Less(Plus1(best[i - c]), best[i]) {
        best[i] := Min(best[i], Plus1(best[i - c]));
        comp[i] := comp[i - c] + [c];
      }
    }
  }

  /** `troco_programacao_dinamica` as written: the count and composition of
      cell `amount`, with the line-42 test against `amount + 1`. */
  method ExactChange(coins: seq<int>, amount: nat) returns (count: ExtInt, used: seq<int>)
    requires Positive(coins)
    ensures count == MinCoins(coins, amount) && used == Composition(coins, amount)
    ensures amount == 0 ==> count == Fin(0) && used == []
    ensures count.Fin? ==> 0 <= count.n <= amount && |used| == count.n && Represents(used, coins, amount)
    ensures count.Fin? ==> forall s :: Represents(s, coins, amount) ==> count.n <= |s|
    ensures count == Inf <==> !Representable(coins, amount)
    ensures count == Inf ==> used == []
    ensures count != Fin(-1)
  {
    var best, comp := FillTables(coins, amount);
    MinCoinsBounded(coins, amount);
    if best[amount] == Fin(amount + 1) {
      count, used := Fin(-1), [];
    } else {
      count, used := best[amount], comp[amount];
    }
    CompositionSound(coins, amount);
    InfIffUnrepresentable(coins, amount);
    forall s | Represents(s, coins, amount) ensures count.Fin? && count.n <= |s| {
      MinCoinsOptimal(coins, amount, s);
    }
  }

  /** The solver with the evidently intended test at line 42: an unpayable
      amount is reported as `(-1, [])`, as the docstring promises. */
  method ExactChangeIntended(coins: seq<int>, amount: nat) returns (count: ExtInt, used: seq<int>)
    requires Positive(coins)
    ensures count.Fin?
    ensures count == Fin(-1) <==> !Representable(coins, amount)
    ensures count == Fin(-1) ==> used == []
    ensures count != Fin(-1) ==>
      && count == MinCoins(coins, amount) && used == Composition(coins, amount)
      && |used| == count.n && Represents(used, coins, amount)
      && forall s :: Represents(s, coins, amount) ==> count.n <= |s|
  {
    var best, comp := FillTables(coins, amount);
    MinCoinsBounded(coins, amount);
    InfIffUnrepresentable(coins, amount);
    CompositionSound(coins, amount);
    if best[amount] == Inf {
      count, used := Fin(-1), [];
    } else {
      count, used := best[amount], comp[amount];
      forall s | Represents(s, coins, amount) ensures count.n <= |s| {
        MinCoinsOptimal(coins, amount, s);
      }
    }
  }

  /** Coins 2 and 4 cannot pay 3, and the table reports it as infinity, not as
      the -1 the docstring promises. */
  lemma EvenCoinsCannotPayThree()
    ensures MinCoins([2, 4], 3) == Inf
    ensures !Representable([2, 4], 3)
  {
    var coins := [2, 4];
    assert Positive(coins);
    assert Scan(coins, 1, 0) == Inf;
    assert Scan(coins, 1, 1) == Inf;
    assert MinCoins(coins, 1) == Scan(coins, 1, 2) == Inf;
    assert Candidate(coins, 3, 0) == Inf;
    assert Scan(coins, 3, 1) == Inf;
    assert MinCoins(coins, 3) == Scan(coins, 3, 2) == Inf;
    InfIffUnrepresentable(coins, 3);
  }
}
