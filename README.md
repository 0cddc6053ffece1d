# Deutsch–Jozsa oracle helpers in Dafny

This project models the three classical helpers behind the Deutsch–Jozsa
demonstration in `deutsch_josza_algo.py`. In the source, a boolean function f
on `n` bits is given as a truth table of `2^n` entries.

- `generate_balanced_truth_table(n)` builds `2^n // 2` ones followed by as
  many zeros. It shuffles them in place and checks that the counts are still
  balanced.
- `reverse_engineer_logic(n, truth_table)` writes the table as a disjunctive
  normal form (DNF) over the variables A, B, C, … .
- `generate_oracle_matrix(n, truth_table)` builds the oracle
  U|x>|y> = |x>|y xor f(x)>. The result is an integer matrix of side
  `2^(n+1)`. It starts as the identity; in every row whose input part
  `i % 2^n` is marked in the table, the 1 moves to column `i ^ (1 << n)`.

The code keeps its imperative form:

- The oracle is a method filling a 2-D array in a loop.
- The truth table is an array shuffled in place by Fisher–Yates.
- The DNF text is built by two nested loops that append to lists.

Each method's result is tied to a specification function. These are:

- `OracleSpec`, the matrix as rows
- `Unshuffled`, the list before the shuffle
- `DnfOf` and `RenderDnf`, the formula and its text

The properties the source relies on are proved as lemmas about those
functions: a permutation matrix, symmetric, its own inverse, unitary; a
50/50 table; a formula that denotes the table it was read from.

Python's error paths are modelled as results:

- The oracle raises `IndexError` when the table is shorter than `2^n`.
- The DNF raises `IndexError` when a 1 sits at an index of `2^n` or more,
  because `inputs[idx]` is then out of range.
- The `ValueError` of the balance check is modelled and proved unreachable.

Modules:

- `Errors`: Python's exceptions as `Result` values.
- `Bits`: `2 ** k`, Python's `^` on naturals, binary digits.
- `Sequences`: `list.count`, `str.join`.
- `Matrices`: matrices as sequences of rows, and `np.eye`.
- `Oracle`, `TruthTables`, `Logic`: one module per source function.

## Model

| member | source | states |
|---|---|---|
| Oracle.GenerateOracleMatrix | deutsch_josza_algo.py:43-58 | fails with IndexError exactly when the table has fewer than `2^n` entries. Otherwise it returns a fresh `2^(n+1)`-square array equal to `OracleSpec`, whose row `i` has its single 1 at `Target(i)`. |
| Oracle.TargetFacts | deutsch_josza_algo.py:47-53 | the column a row's 1 moves to stays below `2^(n+1)`. It keeps the input part `i % 2^n`. Applying it twice gives back `i`. |
| Oracle.OracleIsPermutationMatrix | deutsch_josza_algo.py:44-53 | the oracle is square of side `2^(n+1)`. Its entries are 0 or 1, and every row and every column holds exactly one 1. |
| Oracle.OracleRow | deutsch_josza_algo.py:45-53 | a row whose input entry is not 1 equals the identity row. Any other row has 0 on the diagonal and a 1 in column `j` exactly when `j == i ^ 2^n`. |
| Oracle.OracleIsSymmetric | deutsch_josza_algo.py:48-53 | the oracle matrix equals its transpose. |
| Oracle.OracleSquaredIsIdentity | deutsch_josza_algo.py:48-53 | the oracle times itself is the identity of side `2^(n+1)`. |
| Oracle.OracleIsUnitary | deutsch_josza_algo.py:45-53 | the transpose of the oracle times the oracle is the identity, so the matrix is unitary. |
| Oracle.ConstantZeroOracleIsIdentity | deutsch_josza_algo.py:88-91 | a table with no 1 among its first `2^n` entries gives exactly the identity, the matrix the constant choice builds with `np.eye`. |
| Matrices.Eye | deutsch_josza_algo.py:45 | a fresh `size`-square array holding the identity. |
| Bits.Pow2 | deutsch_josza_algo.py:12 | `2 ** k`, which is also `1 << k`, as used at lines 12, 44, 48 and 52. It is at least 1, so `i % 2^n` at line 48 is defined. |
| Bits.Xor | deutsch_josza_algo.py:52 | Python's `^` on non-negative integers, defined digit by digit; the result never exceeds `a + b`. |
| Bits.XorBit | deutsch_josza_algo.py:52 | digit `j` of `a ^ b` is digit `j` of `a` plus digit `j` of `b`, modulo 2, so `Xor` is the bitwise exclusive or. |
| Bits.XorHighBit | deutsch_josza_algo.py:52 | below `2^(n+1)`, `i ^ 2^n` is `FlipAncilla(n, i)`: it adds `2^n` when digit `n` of `i` is 0 and subtracts it when that digit is 1. |
| Bits.ModBelowDouble | deutsch_josza_algo.py:48 | below `2^(n+1)`, the input part `i % 2^n` is `LowPart(n, i)`: `i` itself, or `i - 2^n`. |
| TruthTables.Repeat | deutsch_josza_algo.py:14 | `[v] * k`: a list of `k` entries, all equal to `v`. |
| TruthTables.Unshuffled | deutsch_josza_algo.py:14 | `[1] * half_size + [0] * half_size`: `2 * half_size` entries, 1 before index `half_size` and 0 from there on. |
| TruthTables.Shuffle | deutsch_josza_algo.py:15 | the Fisher–Yates shuffle permutes the array: its multiset is unchanged, whatever swap partners are drawn. |
| TruthTables.GenerateBalancedTruthTable | deutsch_josza_algo.py:11-21 | never fails, so the ValueError is unreachable. The result 1) is a permutation of `half` ones and `half` zeros, with `half = 2^n // 2`; 2) holds exactly `half` ones and `half` zeros; 3) has only 0/1 entries. For `n >= 1` it has length `2^n` and `half == 2^(n-1)`. For `n == 0` it is empty. |
| TruthTables.UnshuffledCounts | deutsch_josza_algo.py:14 | the list before the shuffle holds `half` ones and `half` zeros. |
| TruthTables.CountRepeat | deutsch_josza_algo.py:14 | `[v] * k` holds `k` copies of `v` and none of any other value. |
| Sequences.Count | deutsch_josza_algo.py:18 | `list.count(v)`: how many entries equal `v`, never more than the length. |
| Sequences.CountIsMultiplicity | deutsch_josza_algo.py:18 | `list.count(v)` is the multiplicity of `v`, so it is unchanged by any permutation. |
| Sequences.Join | deutsch_josza_algo.py:38 | `sep.join(parts)`, used at lines 38 and 40: the parts in order with `sep` between neighbours. The definition itself is the model; its contract says that the text starts with the first part. |
| Sequences.JoinSnoc | deutsch_josza_algo.py:38-40 | joining one more part appends the separator and that part, as appending to the list and then joining would. |
| Logic.ReverseEngineerLogic | deutsch_josza_algo.py:25-41 | fails with IndexError exactly when some entry at index `2^n` or more is 1. Otherwise it returns `RenderDnf(DnfOf(n, table))`: one parenthesised minterm per 1-entry, joined by " ∨ ". |
| Logic.TupleLiterals | deutsch_josza_algo.py:32-37 | the literal texts of an input tuple, one per position: the variable's letter, with "¬" in front when the tuple holds 0 there. |
| Logic.Product01 | deutsch_josza_algo.py:26 | `list(itertools.product([0, 1], repeat=n))`: the tuples starting with 0, then those starting with 1, each half the product of length `n - 1`. There are `2^n` tuples of `n` entries each. |
| Logic.ProductIsBinary | deutsch_josza_algo.py:26 | tuple `idx` of `itertools.product([0, 1], repeat=n)` is `idx` in binary, `n` digits, most significant first. |
| Logic.ProductIsBinaryTable | deutsch_josza_algo.py:26 | the whole product lists `0 … 2^n - 1` in binary, in ascending order. |
| Logic.BinaryCons | deutsch_josza_algo.py:26 | the leading digit of `idx` tells which half of the range it lies in. The remaining digits spell `idx` with that digit removed. |
| Logic.MintermLiterals | deutsch_josza_algo.py:32-38 | the minterm of `idx` has `n` literal texts. Text `k` is `chr(65 + k)`, with "¬" in front exactly when digit `n - 1 - k` of `idx` is 0. |
| Logic.OnesInAscending | deutsch_josza_algo.py:29-30 | the minterm indices are exactly the indices of the 1-entries. They come in strictly ascending order, one per such entry. |
| Logic.MintermSelects | deutsch_josza_algo.py:31-38 | the minterm of `idx` holds of input `x` exactly when `x == idx`. |
| Logic.DnfDenotesTable | deutsch_josza_algo.py:29-40 | on every table the function accepts, the formula holds of input `x` exactly when the table holds 1 at `x`. |
| Logic.DnfRoundTrip | deutsch_josza_algo.py:25-41 | for every 0/1 table of `2^n` entries, the truth table the formula denotes is the table it was read from. |
| Logic.EmptyExactlyWithoutOnes | deutsch_josza_algo.py:40 | the text is empty exactly when no entry is 1. |

## Left out

- `create_quantum_circuit`, the whole of `deutsch_algo.py`, and the qiskit
  operator, transpiler, simulator and measurement counts. These are calls
  into a quantum library whose gate semantics are not part of this model.
- The Streamlit page and the matplotlib plots. They are presentation only;
  the identity branch of the page appears only through
  `Oracle.ConstantZeroOracleIsIdentity`.
- The `print` of the matrix at lines 56-57, which is output only.
- The random generator behind `random.shuffle`. Each swap partner is an
  arbitrary choice in range, so every result proved holds for every draw.
- Logic.ReverseEngineerLogic: requires `65 + n <= 0xD800`. Python's
  `chr(65 + k)` also accepts surrogates and code points up to 0x10FFFF, but a
  Dafny `char` cannot hold a surrogate.
- Negative `n` is out of scope: `n` is a natural number here. The page only
  offers `n` from 2 to 6.
- NumPy's fixed-width `int` dtype is modelled as unbounded `int`. The entries
  are only 0 and 1, so no overflow can occur.
- Entries of a truth table other than 0 and 1 are only compared with 1, as in
  the source. Python's `True == 1` and non-integer entries are not modelled.
