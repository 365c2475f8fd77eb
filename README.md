# Coin change: a verified model of `ProblemaDoTroco.py`

The repository solves the change-making problem: given a list of coin values
and an amount, how few coins can pay the amount exactly? It has two solvers
that both return a pair `(count, coins_used)`:

- `troco_programacao_dinamica` is a bottom-up dynamic-programming solver. It
  fills the table `min_moedas[0..valor]` and the parallel table of
  compositions `moedas_utilizadas[0..valor]`. Every cell above 0 starts at
  `float('inf')`. For each cell it scans the coins in list order and keeps a
  coin only when it is a strict improvement.
- `troco_algoritmo_guloso` is the greedy solver. It walks the coins in the
  given order and takes `valor // moeda` copies of each coin that fits. It
  reports `(-1, [])` unless the amount was paid exactly.

The Dafny project has four modules:

- `Change` (`change.dfy`) holds the shared definitions.
  - `ExtInt = Fin(n) | Inf` is a Python number that may be `float('inf')`.
  - `Less`, `Plus1` and `Min` give `<`, `+ 1` and `min` on those numbers, with infinity above every integer and `Inf + 1 == Inf`.
  - `Sum`, `AllFrom` and `Represents` say when a sequence of coins pays an amount.
  - The ghost predicate `Representable` says some such sequence exists.
- `ExactSolver` (`exact_solver.dfy`) models the DP solver.
  - The ghost functions `MinCoins`, `Scan`, `Winner` and `Composition` give what each table cell holds once it is filled.
  - The lemmas prove what those values mean: the count is the true minimum; the composition pays the amount with that many coins; a cell stays infinite exactly when the amount cannot be paid; ties go to the first coin in list order.
  - `FillTables` and `FillCell` fill real arrays with nested loops, and are proved to agree with the ghost functions.
  - `ExactChange` is the solver as written. `ExactChangeIntended` is the solver with line 42 corrected (see Findings).
- `GreedySolver` (`greedy_solver.dfy`) models the greedy solver.
  - `Run` is a recursive reference for the greedy pass.
  - `GreedyChange` is the loop, with its accumulators, proved equal to `Run`.
  - Lemmas about `Run` give the accounting, coin-membership, remainder and ordering facts.
- `Comparison` (`comparison.dfy`) relates the two solvers.
  - Dominance: the DP count never exceeds a greedy count that succeeds.
  - A worked non-canonical example where greedy is strictly worse.

Integers are unbounded, as in Python. Both solvers are modelled under the
precondition that every coin is positive. The DP solver also takes
`amount: nat`, because a negative `valor` makes line 23 index an empty list.
The greedy solver accepts any integer amount: a negative one simply ends with
`(-1, [])`.

## Model

| member | source | states |
|---|---|---|
| `Change.Min` | ProblemaDoTroco.py:37 | Python's two-argument `min` on counts: the result is one of its arguments and is no larger than either |
| `Change.Repeat` | ProblemaDoTroco.py:78 | `[moeda] * q` has length `q` and every element is `moeda` |
| `ExactSolver.FillCell` | ProblemaDoTroco.py:31-39 | the inner loop over the coins, with cells below `i` final, leaves cell `i` of both tables at its reference value (`MinCoins`, `Composition`) and changes no other cell |
| `ExactSolver.FillTables` | ProblemaDoTroco.py:18-39 | the two tables have `valor + 1` cells, and every cell holds the reference count and composition |
| `ExactSolver.ExactChange` | ProblemaDoTroco.py:5-46 | the result is cell `valor` of both tables. Amount 0 gives `(0, [])`. A finite count is at most the amount, and the composition is a sequence of listed coins of that length summing to the amount. No sequence of coins paying the amount is shorter. The count is `Inf` exactly when the amount cannot be paid, and then the composition is empty. The `-1` branch is never taken |
| `ExactSolver.ExactChangeIntended` | ProblemaDoTroco.py:41-46 | with the unreachable test corrected, the count is `-1` exactly when the amount cannot be paid, and then the composition is empty. Otherwise the result is the optimal count and a composition that pays the amount. It never returns infinity |
| `ExactSolver.WinnerMeaning` | ProblemaDoTroco.py:35-39 | a cell is finite exactly when some coin updated it, and then it holds that coin's `min_moedas[i - moeda] + 1` |
| `ExactSolver.ScanAtMost` | ProblemaDoTroco.py:31-37 | once the scan has passed a coin that fits, the cell is no worse than that coin's candidate |
| `ExactSolver.WinnerIsFirst` | ProblemaDoTroco.py:35-39 | because the update needs a strict `<`, every coin before the last updater has a candidate strictly worse than the stored value |
| `ExactSolver.CompositionSound` | ProblemaDoTroco.py:35-39 | a finite cell's composition uses only listed coins, sums to the cell's amount and has the cell's count as its length. An infinite cell's composition is empty |
| `ExactSolver.MinCoinsOptimal` | ProblemaDoTroco.py:29-39 | every sequence of listed coins that pays the amount makes the cell finite with a count no larger than its length, i.e. "mínimo de moedas" holds |
| `ExactSolver.MinCoinsBounded` | ProblemaDoTroco.py:42-43 | a finite count lies between 0 and the amount, so `min_moedas[valor] == valor + 1` is false on every input |
| `ExactSolver.InfIffUnrepresentable` | ProblemaDoTroco.py:20-39 | a cell stays at infinity if and only if no sequence of coins pays its amount |
| `ExactSolver.TieBreak` | ProblemaDoTroco.py:31-39 | for a nonzero payable amount, the stored composition ends with coin `w`. Coin `w` followed by an optimal payment of the rest is optimal, and no coin earlier in the list has that property |
| `ExactSolver.EvenCoinsCannotPayThree` | ProblemaDoTroco.py:42-46 | coins `[2, 4]` cannot pay 3, and the cell holds infinity rather than -1 |
| `GreedySolver.TakeAsMany` | ProblemaDoTroco.py:71-80 | taking `valor // moeda` copies of a coin that fits takes at least one and leaves less than the coin |
| `GreedySolver.RunSum` | ProblemaDoTroco.py:69-80 | the coins handed out plus the amount left equal the amount owed |
| `GreedySolver.RunFromCoins` | ProblemaDoTroco.py:69-78 | only coins of the list are handed out |
| `GreedySolver.RunLeft` | ProblemaDoTroco.py:69-80 | the amount left never exceeds the starting amount. It stays non-negative for a non-negative amount, and it ends below every coin of the list |
| `GreedySolver.RunInListOrder` | ProblemaDoTroco.py:69-78 | the coins handed out appear in list order: the t-th is `coins[idx[t]]` for a non-decreasing `idx`, so each coin forms one contiguous run |
| `GreedySolver.GreedyChange` | ProblemaDoTroco.py:49-86 | on an exact pass the result is the pass's composition and its length. The count is `-1` exactly when something is left over, and then the composition is empty. A non-`-1` count is the length of a sequence of listed coins that pays the amount. A failed pass on a non-negative amount leaves a positive remainder below every coin |
| `Comparison.Dominance` | ProblemaDoTroco.py:5-86 | whenever the greedy pass pays the amount exactly, the DP count for the same coins in any order (or any superset of them) is finite and no larger than the greedy count |
| `Comparison.GreedyIsSuboptimal` | ProblemaDoTroco.py:69-86 | with coins `[4, 3, 1]` and amount 6, greedy hands out `[4, 1, 1]`. With the same coins the table's minimum is 2 |

The loop invariants of `GreedyChange` state the accumulator facts directly:
- `min_moedas == len(moedas_utilizadas)`;
- the sum handed out plus the remainder equals the original amount;
- a non-negative remainder never increases;
- the remainder is below every coin already handled.

## Left out

- `main` (ProblemaDoTroco.py:89-156) is not modelled. It reads the amount from the terminal, prints, and measures `time.time()`. The alternative coin sets and the `random.randint` amount it has commented out are left out too.
- The `moedas.reverse()` in `main` is not modelled. Each solver takes its coin sequence in the order it is given.
- `float('inf')` is not modelled as a floating-point value. It is the constructor `Inf` of `ExtInt`, ordered above every integer, with `Inf + 1 == Inf` and never equal to an integer.
- Non-positive coins are excluded by a precondition. A zero coin makes line 73 divide by zero. In the DP solver a zero coin happens never to update a cell, and a negative coin either reads a cell above `i` that is not yet computed or raises `IndexError`. The model requires every coin to be positive for both solvers.
- The DP solver's `valor` is not modelled when negative. A negative `valor` makes line 23 raise `IndexError`, so the model takes `amount: nat`.
- Non-integer amounts are not modelled. The greedy docstring calls `valor` a float, but its caller passes an int, so the model uses integers.
- The compositions are modelled as separate sequence values, one per cell. Python could in principle alias lists between cells, but line 39 always builds a new list, so nothing is lost.

## Findings

| source | as written | input that shows it | evidently intended | confidence | as-written member | corrected member |
|---|---|---|---|---|---|---|
| ProblemaDoTroco.py:42-43 | the unreachable test compares `min_moedas[valor]` with `valor + 1`. A finite count is at most `valor` and infinity equals no integer, so the test never fires and an unpayable amount returns `(inf, [])` | coins `[2, 4]`, `valor = 3` returns `(inf, [])` | compare with the "unreachable" marker and return `(-1, [])`, as the docstring (line 15) and the caller's `resultado == -1` test (line 119) expect | high; not executed | `ExactSolver.EvenCoinsCannotPayThree` | `ExactSolver.ExactChangeIntended` |

`ExactSolver.ExactChange` models the code as written: its contract says the
`-1` branch is never taken and an unpayable amount yields `Inf`.
`ExactSolver.EvenCoinsCannotPayThree` exhibits the input. `Comparison.Dominance`
speaks of the table's count, which is the same in both versions.
