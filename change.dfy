/** Definitions shared by both change-making solvers: coin sequences, their sums,
    and the counts a solver reports, which are Python numbers that may be
    `float('inf')`. */
module Change {

  /** A count as the solvers hold it: an integer, or the infinity that the
      dynamic-programming table uses to mark an amount it has not reached. */
  datatype ExtInt = Fin(n: int) | Inf

  /** Python's `<` on an int and `float('inf')`: every integer is below infinity,
      and infinity is below nothing. */
  predicate Less(a: ExtInt, b: ExtInt)
  {
    match a
    case Inf => false
    case Fin(x) => b.Inf? || x < b.n
  }

  predicate LessEq(a: ExtInt, b: ExtInt)
  {
    a == b || Less(a, b)
  }

  /** Python's `x + 1`: `float('inf') + 1` is still infinity. */
  function Plus1(a: ExtInt): ExtInt
  {
    match a
    case Inf => Inf
    case Fin(x) => Fin(x + 1)
  }

  /** Python's two-argument `min`, which keeps its first argument unless the
      second is strictly smaller. */
  function Min(a: ExtInt, b: ExtInt): (r: ExtInt)
    ensures LessEq(r, a) && LessEq(r, b)
    ensures r == a || r == b
  {
    if Less(b, a) then b else a
  }

  /** Every coin value is positive. */
  predicate Positive(coins: seq<int>)
  {
    forall k :: 0 <= k < |coins| ==> coins[k] > 0
  }

  function Sum(s: seq<int>): int
  {
    if s == [] then 0 else s[0] + Sum(s[1..])
  }

  /** Python's `[c] * q`. */
  function Repeat(c: int, q: nat): (r: seq<int>)
    ensures |r| == q
    ensures forall k :: 0 <= k < q ==> r[k] == c
  {
    if q == 0 then [] else [c] + Repeat(c, q - 1)
  }

  /** Every element of `s` is one of the coins. */
  predicate AllFrom(s: seq<int>, coins: seq<int>)
  {
    forall x :: x in s ==> x in coins
  }

  /** `s` is a way of paying `v` with the coins (each coin may be used any number of times). */
  predicate Represents(s: seq<int>, coins: seq<int>, v: int)
  {
    AllFrom(s, coins) && Sum(s) == v
  }

  /** Some sequence of coins pays exactly `v`. */
  ghost predicate Representable(coins: seq<int>, v: int)
  {
    exists s :: Represents(s, coins, v)
  }

  lemma {:induction false} SumAppend(s: seq<int>, t: seq<int>)
    ensures Sum(s + t) == Sum(s) + Sum(t)
  {
    if s == [] {
      assert s + t == t;
    } else {
      assert (s + t)[1..] == s[1..] + t;
      SumAppend(s[1..], t);
    }
  }

  lemma {:induction false} SumRepeat(c: int, q: nat)
    ensures Sum(Repeat(c, q)) == c * q
  {
    if q > 0 {
      SumRepeat(c, q - 1);
    }
  }

  /** With positive coins, a sequence of coins is no longer than the amount it pays. */
  lemma {:induction false} LengthAtMostSum(s: seq<int>, coins: seq<int>)
    requires Positive(coins) && AllFrom(s, coins)
    ensures |s| <= Sum(s)
  {
    if s != [] {
      assert s[0] in s;
      assert AllFrom(s[1..], coins) by {
        forall x | x in s[1..] ensures x in coins {
          assert x in s;
        }
      }
      LengthAtMostSum(s[1..], coins);
    }
  }
}
